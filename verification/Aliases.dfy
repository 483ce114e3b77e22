/** Reserving Go package names: a table that only grows, and an open-ended search for a name that
    is still free or already one's own. */
module Aliases {
  import opened Text
  import opened Digits

  const UNDERSCORE: Str := [95]

  /** `fmt.Sprintf("%s_%d", name, i)` */
  function Candidate(name: Str, i: nat): Str {
    name + UNDERSCORE + Decimal(i)
  }

  /** The numbered names are the name, an underscore and the number in canonical decimal. */
  lemma CandidateReads(name: Str, i: nat, digits: Str)
    requires Canonical(digits) && Value(digits) == i
    ensures Candidate(name, i) == name + Bytes("_") + digits
  {
    DecimalOfValue(digits);
    assert UNDERSCORE == Bytes("_");
  }

  lemma CandidatesDiffer(name: Str, i: nat, j: nat)
    requires Candidate(name, i) == Candidate(name, j)
    ensures i == j
  {
    assert Candidate(name, i)[|name| + 1..] == Decimal(i);
    assert Candidate(name, j)[|name| + 1..] == Decimal(j);
    DecimalIsCanonical(i);
    DecimalIsCanonical(j);
  }

  /** The name belongs to another package. */
  predicate Taken(aliases: map<Str, Str>, alias: Str, path: Str) {
    alias in aliases && aliases[alias] != path
  }

  /** A search that has failed i times has met i different reserved names. */
  lemma {:induction false} TriesAreReserved(aliases: map<Str, Str>, name: Str, path: Str, i: nat) returns (met: set<Str>)
    requires forall j: nat :: j < i ==> Taken(aliases, Candidate(name, j), path)
    ensures met <= aliases.Keys && |met| == i
    ensures forall c :: c in met ==> exists j: nat :: j < i && c == Candidate(name, j)
  {
    if i == 0 {
      met := {};
    } else {
      met := TriesAreReserved(aliases, name, path, i - 1);
      assert Taken(aliases, Candidate(name, i - 1), path);
      if Candidate(name, i - 1) in met {
        var j: nat :| j < i - 1 && Candidate(name, i - 1) == Candidate(name, j);
        CandidatesDiffer(name, i - 1, j);
      }
      met := met + {Candidate(name, i - 1)};
    }
  }

  lemma SearchIsBounded(aliases: map<Str, Str>, name: Str, path: Str, i: nat)
    requires forall j: nat :: j < i ==> Taken(aliases, Candidate(name, j), path)
    ensures i <= |aliases|
  {
    var met := TriesAreReserved(aliases, name, path, i);
    CardinalityGrows(met, aliases.Keys);
    assert |aliases.Keys| == |aliases|;
  }

  lemma {:induction false} CardinalityGrows<T>(a: set<T>, b: set<T>)
    requires a <= b
    ensures |a| <= |b|
    decreases a
  {
    if a != {} {
      var x :| x in a;
      CardinalityGrows(a - {x}, b - {x});
    }
  }

  /** How a package came by its effective name: its own name, or the first numbered one that no
      other package had. */
  ghost predicate Chosen(aliases: map<Str, Str>, name: Str, path: Str, effective: Str) {
    && effective in aliases && aliases[effective] == path
    && (effective == name ||
        (Taken(aliases, name, path) &&
         exists i: nat :: effective == Candidate(name, i) && forall j: nat :: j < i ==> Taken(aliases, Candidate(name, j), path)))
  }

  predicate Grows(before: map<Str, Str>, after: map<Str, Str>) {
    forall alias :: alias in before ==> alias in after && after[alias] == before[alias]
  }

  lemma ChosenStays(before: map<Str, Str>, after: map<Str, Str>, name: Str, path: Str, effective: Str)
    requires Grows(before, after) && Chosen(before, name, path, effective)
    ensures Chosen(after, name, path, effective)
  {
    if effective != name {
      var i: nat :| effective == Candidate(name, i) && forall j: nat :: j < i ==> Taken(before, Candidate(name, j), path);
      assert forall j: nat :: j < i ==> Taken(after, Candidate(name, j), path);
    }
  }

  /** At any moment there is at most one name a package can have chosen. */
  lemma ChosenOnce(aliases: map<Str, Str>, name: Str, path: Str, a: Str, b: Str)
    requires Chosen(aliases, name, path, a) && Chosen(aliases, name, path, b)
    ensures a == b
  {
    if a != name && b != name {
      var i: nat :| a == Candidate(name, i) && forall j: nat :: j < i ==> Taken(aliases, Candidate(name, j), path);
      var k: nat :| b == Candidate(name, k) && forall j: nat :: j < k ==> Taken(aliases, Candidate(name, j), path);
      assert !Taken(aliases, Candidate(name, i), path) && !Taken(aliases, Candidate(name, k), path);
    }
  }

  /** A package that went through reservation: its name, its path, and the name used for it. */
  datatype Reservation = Reservation(name: Str, path: Str, effective: Str)

  ghost predicate AllChosen(aliases: map<Str, Str>, log: seq<Reservation>) {
    forall k :: 0 <= k < |log| ==> Chosen(aliases, log[k].name, log[k].path, log[k].effective)
  }

  /** Over any history of reservations, packages at different paths have different effective
      names, and a package asked for again under the same name keeps its effective name. */
  lemma EffectiveNames(aliases: map<Str, Str>, log: seq<Reservation>, k: nat, l: nat)
    requires AllChosen(aliases, log) && k < |log| && l < |log|
    ensures log[k].path != log[l].path ==> log[k].effective != log[l].effective
    ensures log[k].path == log[l].path && log[k].name == log[l].name ==> log[k].effective == log[l].effective
  {
    if log[k].path == log[l].path && log[k].name == log[l].name {
      ChosenOnce(aliases, log[k].name, log[k].path, log[k].effective, log[l].effective);
    }
  }

  class Registry {
    var pkgAliases: map<Str, Str>
    ghost var log: seq<Reservation>

    constructor ()
      ensures Consistent() && pkgAliases == map[] && log == []
    {
      pkgAliases, log := map[], [];
    }

    ghost predicate Consistent()
      reads this
    {
      AllChosen(pkgAliases, log)
    }

    /** `ReserveGoPackageAlias`: fails exactly when another package has the alias; never gives an
        alias away. */
    method ReserveGoPackageAlias(alias: Str, pkgpath: Str) returns (ok: bool)
      modifies this`pkgAliases
      ensures ok <==> !Taken(old(pkgAliases), alias, pkgpath)
      ensures pkgAliases == if ok then old(pkgAliases)[alias := pkgpath] else old(pkgAliases)
      ensures Grows(old(pkgAliases), pkgAliases)
    {
      if alias in pkgAliases {
        return pkgAliases[alias] == pkgpath;
      }
      pkgAliases := pkgAliases[alias := pkgpath];
      return true;
    }

    /** The loop `for i := 0; ; i++`: it ends, within one try more than there are reservations. */
    method SearchAlias(name: Str, path: Str) returns (alias: Str, ghost tries: nat)
      modifies this`pkgAliases
      ensures Grows(old(pkgAliases), pkgAliases)
      ensures alias in pkgAliases && pkgAliases[alias] == path
      ensures 1 <= tries <= |old(pkgAliases)| + 1 && alias == Candidate(name, tries - 1)
      ensures forall j: nat :: j < tries - 1 ==> Taken(pkgAliases, Candidate(name, j), path)
    {
      var i := 0;
      while true
        invariant pkgAliases == old(pkgAliases) && i <= |pkgAliases|
        invariant forall j: nat :: j < i ==> Taken(pkgAliases, Candidate(name, j), path)
        decreases |pkgAliases| - i
      {
        alias := Candidate(name, i);
        var ok := ReserveGoPackageAlias(alias, path);
        if ok {
          tries := i + 1;
          return;
        }
        i := i + 1;
        SearchIsBounded(pkgAliases, name, path, i);
      }
    }

    /** Reserving a package, as `loadFile` and the generator's `New` do it: its own name if it can
        have it, else the first numbered alias. */
    method ReservePackage(name: Str, path: Str) returns (alias: Str)
      requires Consistent()
      modifies this
      ensures Consistent()
      ensures log == old(log) + [Reservation(name, path, if alias == [] then name else alias)]
      ensures Grows(old(pkgAliases), pkgAliases)
    {
      alias := [];
      ghost var before := pkgAliases;
      var ok := ReserveGoPackageAlias(name, path);
      if !ok {
        ghost var tries;
        alias, tries := SearchAlias(name, path);
      }
      ghost var effective := if alias == [] then name else alias;
      assert Chosen(pkgAliases, name, path, effective);
      forall k | 0 <= k < |log| ensures Chosen(pkgAliases, log[k].name, log[k].path, log[k].effective) {
        ChosenStays(before, pkgAliases, log[k].name, log[k].path, log[k].effective);
      }
      log := log + [Reservation(name, path, effective)];
    }
  }
}
