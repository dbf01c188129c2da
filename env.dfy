/** The shell-variable table: a fixed array of MAX_ENV_VARS name/value pairs and
    a count of the slots in use (my_setenv, my_getenv, free_env_vars). */
module EnvStore {
  import opened ShellBase

  datatype EnvVar = EnvVar(name: string, value: string)

  /** Index of the first entry named `name`, or -1. */
  function FindName(vars: seq<EnvVar>, name: string): (k: int)
    ensures -1 <= k < |vars|
    ensures k == -1 <==> forall j :: 0 <= j < |vars| ==> vars[j].name != name
    ensures k >= 0 ==> vars[k].name == name && forall j :: 0 <= j < k ==> vars[j].name != name
  {
    if vars == [] then -1
    else if vars[0].name == name then 0
    else
      var k := FindName(vars[1..], name);
      if k < 0 then -1 else k + 1
  }

  /** The first entry named `name` is at `k`. */
  lemma FindNameAt(vars: seq<EnvVar>, name: string, k: nat)
    requires k < |vars| && vars[k].name == name
    requires forall j :: 0 <= j < k ==> vars[j].name != name
    ensures FindName(vars, name) == k
  {
  }

  /** my_getenv: the value of the first entry named `name`. */
  function Lookup(vars: seq<EnvVar>, name: string): Option<string> {
    var k := FindName(vars, name);
    if k < 0 then None else Some(vars[k].value)
  }

  predicate UniqueNames(vars: seq<EnvVar>) {
    forall i, j :: 0 <= i < j < |vars| ==> vars[i].name != vars[j].name
  }

  /** my_setenv on the table's contents: overwrite the value of an existing
      name in place, otherwise append, and fail (None) when a new name finds
      the table full. */
  function Assign(vars: seq<EnvVar>, name: string, value: string): Option<seq<EnvVar>> {
    var k := FindName(vars, name);
    if k >= 0 then Some(vars[k := EnvVar(name, value)])
    else if |vars| >= MaxEnvVars then None
    else Some(vars + [EnvVar(name, value)])
  }

  /** After a successful assignment the name reads back as the new value. */
  lemma AssignThenLookup(vars: seq<EnvVar>, name: string, value: string)
    requires Assign(vars, name, value).Some?
    ensures Lookup(Assign(vars, name, value).value, name) == Some(value)
  {
    var w := Assign(vars, name, value).value;
    var k := FindName(vars, name);
    if k >= 0 {
      FindNameAt(w, name, k);
    } else {
      forall j | 0 <= j < |vars| ensures w[j].name != name {
        assert w[j] == vars[j];
      }
      FindNameAt(w, name, |vars|);
    }
  }

  /** An assignment changes no other name's value. */
  lemma AssignKeepsOthers(vars: seq<EnvVar>, name: string, value: string, other: string)
    requires Assign(vars, name, value).Some? && other != name
    ensures Lookup(Assign(vars, name, value).value, other) == Lookup(vars, other)
  {
    var w := Assign(vars, name, value).value;
    var m := FindName(vars, other);
    forall j | 0 <= j < |vars| ensures w[j].name == other <==> vars[j].name == other {
    }
    if m >= 0 {
      assert FindName(w, other) == m;
    } else {
      assert FindName(w, other) == -1;
    }
  }

  /** Re-setting a name keeps the count; a new name adds one entry; the table
      refuses only a new name when it already holds MAX_ENV_VARS entries. */
  lemma AssignSize(vars: seq<EnvVar>, name: string, value: string)
    ensures Lookup(vars, name).Some? ==>
      Assign(vars, name, value).Some? && |Assign(vars, name, value).value| == |vars|
    ensures Lookup(vars, name).None? && |vars| < MaxEnvVars ==>
      Assign(vars, name, value) == Some(vars + [EnvVar(name, value)])
    ensures Assign(vars, name, value).None? <==> Lookup(vars, name).None? && |vars| >= MaxEnvVars
  {
  }

  /** Assignments keep the names unique. */
  lemma AssignKeepsNamesUnique(vars: seq<EnvVar>, name: string, value: string)
    requires UniqueNames(vars)
    ensures Assign(vars, name, value).Some? ==> UniqueNames(Assign(vars, name, value).value)
  {
  }

  class EnvTable {
    var slots: array<EnvVar>
    var count: nat

    ghost predicate Valid()
      reads this, slots
    {
      slots.Length == MaxEnvVars && count <= slots.Length && UniqueNames(slots[..count])
    }

    /** The entries in use, in insertion order. */
    ghost function Entries(): seq<EnvVar>
      reads this, slots
      requires Valid()
    {
      slots[..count]
    }

    constructor ()
      ensures Valid() && fresh(slots) && Entries() == []
    {
      slots := new EnvVar[MaxEnvVars](_ => EnvVar([], []));
      count := 0;
    }

    /** The search loop my_setenv and my_getenv share: the slot of the first
        entry named `name`, or -1. */
    method Find(name: string) returns (i: int)
      requires Valid()
      ensures i == FindName(Entries(), name)
    {
      i := 0;
      while i < count
        invariant 0 <= i <= count
        invariant forall j :: 0 <= j < i ==> slots[j].name != name
      {
        if slots[i].name == name {
          FindNameAt(Entries(), name, i);
          return i;
        }
        i := i + 1;
      }
      return -1;
    }

    /** my_setenv: overwrite the value of an existing name, else append the
        pair, failing when the table is full. */
    method Set(name: string, value: string) returns (st: Status)
      requires Valid()
      modifies slots, this`count
      ensures Valid() && slots == old(slots)
      ensures var w := Assign(old(Entries()), name, value);
        && (st == if w.Some? then Success else SystemFailure)
        && Entries() == if w.Some? then w.value else old(Entries())
    {
      ghost var before := Entries();
      AssignKeepsNamesUnique(before, name, value);
      var i := Find(name);
      if i >= 0 {
        slots[i] := EnvVar(name, value);
        assert Entries() == before[i := EnvVar(name, value)];
        return Success;
      }
      if count >= MaxEnvVars {
        return SystemFailure;
      }
      slots[count] := EnvVar(name, value);
      count := count + 1;
      assert Entries() == before + [EnvVar(name, value)];
      return Success;
    }

    /** my_getenv. */
    method Get(name: string) returns (v: Option<string>)
      requires Valid()
      ensures v == Lookup(Entries(), name)
    {
      var i := Find(name);
      if i < 0 {
        return None;
      }
      return Some(slots[i].value);
    }

    /** free_env_vars: the table is emptied. */
    method Clear()
      requires Valid()
      modifies this`count
      ensures Valid() && Entries() == []
    {
      count := 0;
    }
  }
}
