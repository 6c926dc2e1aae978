/** The numeric-function table of a domain (`FunctionTable` of the mGPT
    planner core): function names with their index, a name map, one
    parameter type list per function and the set of static functions. */
module FunctionTables {

  /** A function is its index in the table. */
  type Function = int

  /** A parameter type, by its index in the type table. */
  type TypeId = int

  class FunctionTable {
    /** `names_`: the name of each function, by index. */
    var names: seq<string>
    /** `functions_`: the index of each name. */
    var functions: map<string, Function>
    /** `parameters_`: the parameter types of each function. */
    var parameters: seq<seq<TypeId>>
    /** `static_functions_`. */
    var staticFunctions: set<Function>

    /** Names are distinct, the map inverts `names`, there is one parameter
        list per function and every static function is in the table. */
    ghost predicate Valid()
      reads this
    {
      |parameters| == |names|
      && (forall i, j :: 0 <= i < j < |names| ==> names[i] != names[j])
      && (forall n :: n in functions <==> n in names)
      && (forall i :: 0 <= i < |names| ==> names[i] in functions && functions[names[i]] == i)
      && (forall f :: f in staticFunctions ==> 0 <= f < |names|)
    }

    constructor ()
      ensures Valid() && names == [] && functions == map[] && parameters == [] && staticFunctions == {}
    {
      names, functions, parameters, staticFunctions := [], map[], [], {};
    }

    /** `last_function()`: the index of the last function added. */
    function LastFunction(): (f: Function)
      reads this
      ensures f + 1 == |names|
    {
      |names| - 1
    }

    /** `add_function(name)`: the index of `name`, added with no parameter
        and as a static function when it is new. */
    method AddFunction(name: string) returns (fn: Function)
      requires Valid()
      modifies this
      ensures Valid()
      ensures 0 <= fn < |names| && names[fn] == name
      ensures name in old(names) ==>
        names == old(names) && functions == old(functions) && parameters == old(parameters)
        && staticFunctions == old(staticFunctions)
      ensures name !in old(names) ==>
        fn == |old(names)| && names == old(names) + [name]
        && functions == old(functions)[name := fn] && parameters == old(parameters) + [[]]
        && staticFunctions == old(staticFunctions) + {fn}
    {
      var i := 0;
      while i < |names|
        invariant 0 <= i <= |names|
        invariant name !in names[..i]
      {
        if names[i] == name {
          return i;
        }
        assert names[..i + 1] == names[..i] + [names[i]];
        i := i + 1;
      }
      assert names[..i] == names;
      fn := LastFunction() + 1;
      names := names + [name];
      functions := functions[name := fn];
      parameters := parameters + [[]];
      staticFunctions := staticFunctions + {fn};
    }

    /** `find_function(name)`: the index of a known name and `true`, or
        `0` and `false`. */
    function FindFunction(name: string): (r: (Function, bool))
      reads this
      ensures Valid() ==> (r.1 <==> name in names)
      ensures Valid() && r.1 ==> 0 <= r.0 < |names| && names[r.0] == name
      ensures !r.1 ==> r.0 == 0
    {
      if name in functions then (functions[name], true) else (0, false)
    }

    /** `print_function(function)`: the name of a function in the table,
        which `find_function` maps back to it. */
    function PrintFunction(fn: Function): (s: string)
      reads this
      requires 0 <= fn < |names|
      ensures s in names
      ensures Valid() ==> FindFunction(s) == (fn, true)
    {
      names[fn]
    }
  }

  /** Adding a name and then looking it up finds the index `add_function`
      returned, whether the name was new or known; other names keep their
      lookups. */
  method AddThenFind(table: FunctionTable, name: string, other: string) returns (fn: Function)
    requires table.Valid() && other != name
    modifies table
    ensures table.FindFunction(name) == (fn, true)
    ensures table.FindFunction(other) == old(table.FindFunction(other))
  {
    fn := table.AddFunction(name);
  }
}
