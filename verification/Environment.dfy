/** The environment: a null-terminated vector of "name=value" strings behind the pointer environ. */
module Environment {

  datatype Option<T> = None | Some(value: T)

  /** A char pointer of the vector. */
  datatype Pointer = Null | Str(text: string)

  // ---------------------------------------------------------------- entries

  /** Index of the first equals sign, or -1. */
  function FindEquals(s: string): (k: int)
    ensures -1 <= k < |s|
    ensures k >= 0 ==> s[k] == '=' && '=' !in s[..k]
    ensures k == -1 <==> '=' !in s
  {
    if s == [] then -1
    else if s[0] == '=' then 0
    else
      var k := FindEquals(s[1..]);
      assert k >= 0 ==> s[..k + 1] == [s[0]] + s[1..][..k];
      assert '=' in s <==> '=' in s[1..];
      if k == -1 then -1 else k + 1
  }

  /** The name of an entry; an entry without an equals sign has none. */
  function NameOf(s: string): Option<string> {
    var k := FindEquals(s);
    if k == -1 then None else Some(s[..k])
  }

  function ValueOf(s: string): string
    requires NameOf(s).Some?
  {
    s[FindEquals(s) + 1..]
  }

  lemma EntryParts(name: string, value: string)
    requires '=' !in name
    ensures NameOf(name + "=" + value) == Some(name) && ValueOf(name + "=" + value) == value
  {
    var s := name + "=" + value;
    var k := FindEquals(s);
    assert s[|name|] == '=';
    assert k == |name|;
    assert s[..|name|] == name && s[|name| + 1..] == value;
  }

  // ------------------------------------------------------------ specification

  /** Index of the first entry of that name, or -1. */
  function IndexOf(env: seq<string>, name: string): (k: int)
    ensures -1 <= k < |env|
    ensures k >= 0 ==> NameOf(env[k]) == Some(name)
    ensures forall i :: 0 <= i < (if k == -1 then |env| else k) ==> NameOf(env[i]) != Some(name)
  {
    if env == [] then -1
    else if NameOf(env[0]) == Some(name) then 0
    else
      var k := IndexOf(env[1..], name);
      if k == -1 then -1 else k + 1
  }

  /** The variables as a map; of several entries of one name the first counts. */
  function Variables(env: seq<string>): map<string, string> {
    if env == [] then map[]
    else if NameOf(env[0]).None? then Variables(env[1..])
    else Variables(env[1..])[NameOf(env[0]).value := ValueOf(env[0])]
  }

  /** No name occurs twice. */
  ghost predicate Unique(env: seq<string>) {
    forall i, j :: 0 <= i < j < |env| && NameOf(env[i]).Some? ==> NameOf(env[i]) != NameOf(env[j])
  }

  /** Number of entries of that name. */
  function Occurrences(env: seq<string>, name: string): nat {
    if env == [] then 0
    else (if NameOf(env[0]) == Some(name) then 1 else 0) + Occurrences(env[1..], name)
  }

  lemma {:induction false} VariablesAt(env: seq<string>, name: string)
    ensures name in Variables(env) <==> IndexOf(env, name) != -1
    ensures name in Variables(env) ==> Variables(env)[name] == ValueOf(env[IndexOf(env, name)])
  {
    if env != [] { VariablesAt(env[1..], name); }
  }

  /** Replacing the first entry of a name by another entry of that name. */
  lemma {:induction false} ReplaceEntry(env: seq<string>, k: nat, entry: string)
    requires k < |env| && NameOf(entry).Some? && k == IndexOf(env, NameOf(entry).value)
    ensures Variables(env[k := entry]) == Variables(env)[NameOf(entry).value := ValueOf(entry)]
    ensures Unique(env) ==> Unique(env[k := entry])
  {
    if k == 0 {
      assert env[0 := entry][1..] == env[1..];
    } else {
      ReplaceTail(env, k, entry);
    }
  }

  lemma {:induction false} ReplaceTail(env: seq<string>, k: nat, entry: string)
    requires 0 < k < |env| && NameOf(entry).Some? && k == IndexOf(env, NameOf(entry).value)
    ensures Variables(env[k := entry]) == Variables(env)[NameOf(entry).value := ValueOf(entry)]
    decreases |env|
  {
    assert env[k := entry][1..] == env[1..][k - 1 := entry];
    if k - 1 == 0 {
      assert env[1..][0 := entry][1..] == env[1..][1..];
    } else {
      ReplaceTail(env[1..], k - 1, entry);
    }
  }

  /** Appending an entry of a new name. */
  lemma {:induction false} AppendEntry(env: seq<string>, entry: string)
    requires NameOf(entry).Some? && IndexOf(env, NameOf(entry).value) == -1
    ensures Variables(env + [entry]) == Variables(env)[NameOf(entry).value := ValueOf(entry)]
    ensures Unique(env) ==> Unique(env + [entry])
    decreases |env|
  {
    if env != [] {
      assert (env + [entry])[1..] == env[1..] + [entry];
      AppendEntry(env[1..], entry);
    } else {
      assert ([] + [entry])[1..] == [];
      assert env + [entry] == [entry];
    }
  }

  /** The vector after removal of entry k: the last entry takes its place. */
  function Without(env: seq<string>, k: nat): seq<string>
    requires k < |env|
  {
    env[k := env[|env| - 1]][..|env| - 1]
  }

  lemma UniqueIndex(env: seq<string>, name: string, i: nat)
    requires Unique(env) && i < |env| && NameOf(env[i]) == Some(name)
    ensures IndexOf(env, name) == i
  {
  }

  /** With unique names, removal removes one variable and no other, although it reorders. */
  lemma RemoveEntry(env: seq<string>, k: nat, name: string)
    requires Unique(env) && k < |env| && NameOf(env[k]) == Some(name)
    ensures Unique(Without(env, k))
    ensures Variables(Without(env, k)) == Variables(env) - {name}
  {
    hide Variables, NameOf, ValueOf;
    var out := Without(env, k);
    assert forall i :: 0 <= i < |out| ==> out[i] == env[if i == k then |env| - 1 else i];
    var (l, r) := (Variables(out), Variables(env) - {name});
    forall x ensures (x in l <==> x in r) && (x in l ==> l[x] == r[x]) {
      RemovedAt(env, k, name, x);
    }
    assert l.Keys == r.Keys;
  }

  lemma RemovedAt(env: seq<string>, k: nat, name: string, x: string)
    requires Unique(env) && k < |env| && NameOf(env[k]) == Some(name) && Unique(Without(env, k))
    ensures x in Variables(Without(env, k)) <==> x in Variables(env) && x != name
    ensures x in Variables(Without(env, k)) ==> Variables(Without(env, k))[x] == Variables(env)[x]
  {
    hide Variables, NameOf, ValueOf;
    var out := Without(env, k);
    VariablesAt(env, x);
    VariablesAt(out, x);
    var (i, j) := (IndexOf(env, x), IndexOf(out, x));
    if j >= 0 {
      UniqueIndex(env, x, if j == k then |env| - 1 else j);
      UniqueIndex(env, name, k);
    }
    if i >= 0 && x != name {
      var at := if i == |env| - 1 then k else i;
      assert out[at] == env[i];
    }
  }

  /** Exactly when removal makes the name disappear. */
  lemma RemovalComplete(env: seq<string>, name: string)
    requires IndexOf(env, name) != -1
    ensures name !in Variables(Without(env, IndexOf(env, name))) <==> Occurrences(env, name) == 1
  {
    hide Variables, NameOf;
    var k := IndexOf(env, name);
    var out := Without(env, k);
    VariablesAt(out, name);
    OccurrencesAt(env, name);
    if Occurrences(env, name) == 1 {
      OnlyOne(env, name, k);
    } else {
      var j := Second(env, name, k);
      assert out[if j == |env| - 1 then k else j] == env[j];
    }
  }

  lemma {:induction false} OccurrencesAt(env: seq<string>, name: string)
    ensures Occurrences(env, name) > 0 <==> IndexOf(env, name) != -1
  {
    if env != [] { OccurrencesAt(env[1..], name); }
  }

  lemma {:induction false} OnlyOne(env: seq<string>, name: string, k: nat)
    requires k < |env| && NameOf(env[k]) == Some(name) && Occurrences(env, name) == 1
    ensures forall i :: 0 <= i < |env| && i != k ==> NameOf(env[i]) != Some(name)
  {
    OccurrencesAt(env[1..], name);
    if k == 0 {
      assert forall i :: 0 < i < |env| ==> env[i] == env[1..][i - 1];
    } else {
      assert Occurrences(env[1..], name) > 0 by { assert env[k] == env[1..][k - 1]; }
      OnlyOne(env[1..], name, k - 1);
      assert forall i :: 0 < i < |env| ==> env[i] == env[1..][i - 1];
    }
  }

  lemma {:induction false} Second(env: seq<string>, name: string, k: nat) returns (j: nat)
    requires k < |env| && k == IndexOf(env, name) && Occurrences(env, name) > 1
    ensures k < j < |env| && NameOf(env[j]) == Some(name)
  {
    OccurrencesAt(env[1..], name);
    if k == 0 {
      j := IndexOf(env[1..], name) + 1;
    } else {
      j := Second(env[1..], name, k - 1);
      j := j + 1;
    }
  }

  /** A vector with a repeated name, as a program may install one: unsetenv leaves the second entry. */
  lemma RepeatedName()
    ensures var env := ["A=1", "A=2"];
            IndexOf(env, "A") == 0 && "A" in Variables(Without(env, 0))
  {
    var env := ["A=1", "A=2"];
    EntryParts("A", "1");
    EntryParts("A", "2");
    assert "A" + "=" + "1" == "A=1" && "A" + "=" + "2" == "A=2";
    assert Without(env, 0) == ["A=2"];
    VariablesAt(["A=2"], "A");
  }

  // -------------------------------------------------------------- the module

  const EINVAL: int := 22

  class Environ {
    /** The vector that putenv and setenv change, with its null delimiter. */
    var vector: seq<Pointer>
    /** A vector installed by the program; environ points to it unless usesVector. */
    var outside: seq<string>
    var usesVector: bool

    static ghost predicate Terminated(v: seq<Pointer>) {
      |v| >= 1 && v[|v| - 1].Null? && forall i :: 0 <= i < |v| - 1 ==> v[i].Str?
    }

    ghost predicate Valid()
      reads this
    {
      usesVector ==> Terminated(vector)
    }

    static function Texts(v: seq<Pointer>): seq<string>
      requires Terminated(v)
    {
      seq(|v| - 1, i requires 0 <= i < |v| - 1 => v[i].text)
    }

    /** The strings that environ points to. */
    ghost function Entries(): seq<string>
      requires Valid()
      reads this
    {
      if usesVector then Texts(vector) else outside
    }

    constructor ()
      ensures Valid() && Entries() == [] && Unique(Entries())
    {
      vector, outside, usesVector := [], [], false;
    }

    /** The program assigns environ. */
    method Install(strings: seq<string>)
      modifies this`outside, this`usesVector
      ensures Valid() && Entries() == strings
    {
      outside, usesVector := strings, false;
    }

    /** environ[i]. */
    function At(i: nat): Pointer
      requires Valid() && i <= |Entries()|
      reads this
    {
      if usesVector then vector[i] else if i < |outside| then Str(outside[i]) else Null
    }

    method FindEnvironIndex(name: string) returns (k: int)
      requires Valid()
      ensures k == IndexOf(Entries(), name)
    {
      hide IndexOf, NameOf;
      var i := 0;
      while At(i).Str?
        invariant 0 <= i <= |Entries()|
        invariant forall j :: 0 <= j < i ==> NameOf(Entries()[j]) != Some(name)
        decreases |Entries()| - i
      {
        if NameOf(At(i).text) == Some(name) {
          FirstIndex(Entries(), name, i);
          return i;
        }
        i := i + 1;
      }
      NoIndex(Entries(), name);
      return -1;
    }

    /** Copies an environment installed from outside into the vector. */
    method UpdateVector()
      requires Valid()
      modifies this`vector, this`usesVector
      ensures Valid() && usesVector && Entries() == old(Entries())
    {
      if usesVector { return; }
      vector := [];
      var i := 0;
      while At(i).Str?
        invariant 0 <= i <= |outside| && !usesVector && |vector| == i
        invariant forall j :: 0 <= j < i ==> vector[j] == Str(outside[j])
        decreases |outside| - i
      {
        vector := vector + [At(i)];
        i := i + 1;
      }
      vector := vector + [Null];
      usesVector := true;
    }

    /** Sets the entry of a name, or appends one in place of the delimiter. */
    method AssignVariable(name: string, entry: string, overwrite: bool)
      requires Valid() && usesVector && NameOf(entry) == Some(name)
      modifies this`vector
      ensures Valid()
      ensures var (env, k) := (old(Entries()), IndexOf(old(Entries()), name));
              Entries() == if k == -1 then env + [entry] else if overwrite then env[k := entry] else env
      ensures !overwrite && name in Variables(old(Entries())) ==> Entries() == old(Entries())
      ensures overwrite || name !in Variables(old(Entries())) ==>
                Variables(Entries()) == Variables(old(Entries()))[name := ValueOf(entry)]
      ensures Unique(old(Entries())) ==> Unique(Entries())
    {
      hide Variables, NameOf, IndexOf, Unique, Texts, Terminated;
      ghost var env := Entries();
      var k := FindEnvironIndex(name);
      VariablesAt(env, name);
      if k != -1 {
        if overwrite {
          ReplaceEntry(env, k, entry);
          TextsReplace(vector, k, entry);
          vector := vector[k := Str(entry)];
        }
      } else {
        AppendEntry(env, entry);
        TextsAppend(vector, entry);
        vector := vector[|vector| - 1 := Str(entry)];
        vector := vector + [Null];
      }
    }

    static lemma TextsReplace(v: seq<Pointer>, k: nat, entry: string)
      requires Terminated(v) && k < |Texts(v)|
      ensures k < |v| && Terminated(v[k := Str(entry)]) && Texts(v[k := Str(entry)]) == Texts(v)[k := entry]
    {
    }

    static lemma TextsAppend(v: seq<Pointer>, entry: string)
      requires Terminated(v)
      ensures |v| >= 1
      ensures var w := v[|v| - 1 := Str(entry)] + [Null]; Terminated(w) && Texts(w) == Texts(v) + [entry]
    {
    }

    /** Removes the first entry of a name: the last entry takes its place. */
    method UnassignVariable(name: string)
      requires Valid() && usesVector
      modifies this`vector
      ensures Valid()
      ensures var k := IndexOf(old(Entries()), name);
              Entries() == if k == -1 then old(Entries()) else Without(old(Entries()), k)
    {
      hide Variables, NameOf, IndexOf, Unique;
      ghost var env := Entries();
      var k := FindEnvironIndex(name);
      if k == -1 { return; }
      var last := |vector| - 2;
      vector := vector[k := vector[last]][last := vector[k]];
      vector := vector[..|vector| - 1];
      vector := vector[|vector| - 1 := Null];
      assert Entries() == Without(env, k);
    }

    method Getenv(name: string) returns (value: Option<string>)
      requires Valid()
      ensures value == if name in Variables(Entries()) then Some(Variables(Entries())[name]) else None
    {
      hide Variables, NameOf;
      VariablesAt(Entries(), name);
      var k := FindEnvironIndex(name);
      if k == -1 { return None; }
      value := Some(ValueOf(At(k).text));
    }

    /** setenv refuses a name with an equals sign and otherwise updates the map. */
    method Setenv(name: string, value: string, overwrite: bool) returns (r: int, errno: int)
      requires Valid()
      modifies this
      ensures Valid() && (r == -1 <==> '=' in name) && (r == -1 ==> errno == 22 && Entries() == old(Entries()))
      ensures r != -1 ==> r == 0 && errno == 0 && usesVector
      ensures r != -1 && !overwrite && name in Variables(old(Entries())) ==> Entries() == old(Entries())
      ensures r != -1 && (overwrite || name !in Variables(old(Entries()))) ==>
                Variables(Entries()) == Variables(old(Entries()))[name := value]
      ensures Unique(old(Entries())) ==> Unique(Entries())
    {
      hide Variables, NameOf, Unique, ValueOf;
      if FindEquals(name) != -1 { return -1, EINVAL; }
      EntryParts(name, value);
      UpdateVector();
      AssignVariable(name, name + "=" + value, overwrite);
      return 0, 0;
    }

    /** With unique names unsetenv removes exactly that variable. */
    method Unsetenv(name: string)
      requires Valid()
      modifies this
      ensures Valid() && usesVector
      ensures Unique(old(Entries())) ==> Unique(Entries()) && Variables(Entries()) == Variables(old(Entries())) - {name}
      ensures name !in Variables(Entries()) <==> Occurrences(old(Entries()), name) <= 1
    {
      hide Variables, NameOf, Unique, IndexOf;
      ghost var env := Entries();
      UpdateVector();
      UnassignVariable(name);
      Removed(env, name);
    }

    /** clearenv clears a copy of the vector, so every variable survives it. */
    method Clearenv()
      requires Valid()
      modifies this
      ensures Valid() && usesVector && Entries() == old(Entries())
    {
      var copy := vector;
      copy := [];
      UpdateVector();
    }

    /** putenv with an equals sign assigns; without one it removes. */
    method Putenv(entry: string)
      requires Valid()
      modifies this
      ensures Valid() && usesVector
      ensures NameOf(entry).Some? ==>
                Variables(Entries()) == Variables(old(Entries()))[NameOf(entry).value := ValueOf(entry)]
      ensures NameOf(entry).None? && Unique(old(Entries())) ==>
                Variables(Entries()) == Variables(old(Entries())) - {entry}
      ensures Unique(old(Entries())) ==> Unique(Entries())
    {
      hide Variables, Unique, IndexOf, ValueOf;
      ghost var env := Entries();
      var s := FindEquals(entry);
      UpdateVector();
      if s == -1 {
        UnassignVariable(entry);
        Removed(env, entry);
      } else {
        AssignVariable(entry[..s], entry, true);
      }
    }
  }

  lemma FirstIndex(env: seq<string>, name: string, i: nat)
    requires i < |env| && NameOf(env[i]) == Some(name) && forall j :: 0 <= j < i ==> NameOf(env[j]) != Some(name)
    ensures IndexOf(env, name) == i
  {
  }

  lemma NoIndex(env: seq<string>, name: string)
    requires forall j :: 0 <= j < |env| ==> NameOf(env[j]) != Some(name)
    ensures IndexOf(env, name) == -1
  {
  }

  lemma Removed(env: seq<string>, name: string)
    ensures var k := IndexOf(env, name); var out := if k == -1 then env else Without(env, k);
            && (Unique(env) ==> Unique(out) && Variables(out) == Variables(env) - {name})
            && (name !in Variables(out) <==> Occurrences(env, name) <= 1)
  {
    hide Variables, NameOf, Unique;
    var k := IndexOf(env, name);
    OccurrencesAt(env, name);
    if k == -1 {
      VariablesAt(env, name);
      assert Variables(env) - {name} == Variables(env);
    } else {
      if Unique(env) { RemoveEntry(env, k, name); }
      RemovalComplete(env, name);
    }
  }

  // ------------------------------------------------------------------- runs

  datatype Call =
    | Set(name: string, value: string, overwrite: bool)
    | Put(entry: string)
    | Unset(name: string)
    | Replace(strings: seq<string>)

  /** The effect of a call on a finite map. */
  function OnMap(m: map<string, string>, c: Call): map<string, string> {
    match c
    case Set(name, value, overwrite) => if '=' in name || (!overwrite && name in m) then m else m[name := value]
    case Put(entry) => if NameOf(entry).Some? then m[NameOf(entry).value := ValueOf(entry)] else m - {entry}
    case Unset(name) => m - {name}
    case Replace(strings) => Variables(strings)
  }

  /** What setting a variable does to each variable x: nothing to the others, nothing without overwriting, and nothing
      for a name with an equals sign. */
  lemma SetOnMap(m: map<string, string>, name: string, value: string, overwrite: bool, x: string)
    ensures var n := OnMap(m, Set(name, value, overwrite));
            && (x != name || '=' in name ==> (x in n <==> x in m) && (x in m ==> n[x] == m[x]))
            && ('=' !in name ==> name in n && n[name] == if name in m && !overwrite then m[name] else value)
  {
  }

  function RunMap(m: map<string, string>, calls: seq<Call>): map<string, string> {
    if calls == [] then m else OnMap(RunMap(m, calls[..|calls| - 1]), calls[|calls| - 1])
  }

  /** As long as names are unique, any run of calls acts on the environment as on a finite map. */
  method Run(env: Environ, calls: seq<Call>)
    requires env.Valid() && Unique(env.Entries())
    requires forall i :: 0 <= i < |calls| && calls[i].Replace? ==> Unique(calls[i].strings)
    modifies env
    ensures env.Valid() && Unique(env.Entries())
    ensures Variables(env.Entries()) == RunMap(Variables(old(env.Entries())), calls)
  {
    hide Variables, NameOf, ValueOf, Unique;
    ghost var m := Variables(env.Entries());
    for i := 0 to |calls|
      invariant env.Valid() && Unique(env.Entries())
      invariant Variables(env.Entries()) == RunMap(m, calls[..i])
    {
      assert calls[..i + 1][..i] == calls[..i];
      match calls[i]
      case Set(name, value, overwrite) => { var r, errno := env.Setenv(name, value, overwrite); }
      case Put(entry) => { env.Putenv(entry); }
      case Unset(name) => { env.Unsetenv(name); }
      case Replace(strings) => { env.Install(strings); }
    }
    assert calls[..|calls|] == calls;
  }
}
