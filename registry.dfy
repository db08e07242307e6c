/** The fixed calendar registry CALS and the name-to-id lookup of cal_names_to_ids. */
module Registry {
  import opened Common
  import opened Chars

  /** CALS, in the dictionary's insertion order: (id, display name). */
  const Cals: seq<(int, string)> := [
    (67, "Music"), (69, "Parent"), (66, "Whole School"),
    (63, "Yr 10"), (64, "Yr 11"), (65, "Yr 12"),
    (60, "Yr 7"), (61, "Yr 8"), (62, "Yr 9")
  ]

  predicate NameMatches(entry: (int, string), name: string) {
    FoldString(entry.1) == FoldString(name)
  }

  /** The search loop of cal2id: the id of the first entry whose name casefolds like `name`. */
  function FirstMatch(entries: seq<(int, string)>, name: string): (r: Option<int>)
    ensures r.None? <==> forall i :: 0 <= i < |entries| ==> !NameMatches(entries[i], name)
    ensures r.Some? ==> exists i :: 0 <= i < |entries| && entries[i].0 == r.value && NameMatches(entries[i], name)
  {
    if |entries| == 0 then None
    else if NameMatches(entries[0], name) then Some(entries[0].0)
    else FirstMatch(entries[1..], name)
  }

  /** cal2id: the id of a registry entry whose name casefolds like `name`, or None when there is none. */
  function CalToId(name: string): (r: Option<int>)
    ensures r.None? <==> forall i :: 0 <= i < |Cals| ==> FoldString(Cals[i].1) != FoldString(name)
    ensures r.Some? ==> exists i :: 0 <= i < |Cals| && Cals[i].0 == r.value && FoldString(Cals[i].1) == FoldString(name)
  {
    FirstMatch(Cals, name)
  }

  /** cal_names_to_ids: the set of ids (None for an unknown name) of the given names. */
  function CalNamesToIds(names: seq<string>): (r: set<Option<int>>)
    ensures forall n :: n in names ==> CalToId(n) in r
    ensures forall x :: x in r ==> exists n :: n in names && CalToId(n) == x
  {
    set n | n in names :: CalToId(n)
  }

  /** No two registry names casefold alike, so a name matches at most one entry. */
  lemma RegistryNamesDistinct()
    ensures forall i, j :: 0 <= i < j < |Cals| ==> FoldString(Cals[i].1) != FoldString(Cals[j].1)
  {
    forall i, j | 0 <= i < j < |Cals|
      ensures FoldString(Cals[i].1) != FoldString(Cals[j].1)
    {
      var a, b := Cals[i].1, Cals[j].1;
      if |a| == |b| {
        // names of equal length differ at their last or their first character
        var k := if a[|a| - 1] != b[|b| - 1] then |a| - 1 else 0;
        assert Fold(a[k]) != Fold(b[k]);
      }
    }
  }

  /** A name resolves to id k exactly when the registry lists k under a name that casefolds the same. */
  lemma CalToIdCorrect(name: string, k: int)
    ensures CalToId(name) == Some(k) <==>
      exists i :: 0 <= i < |Cals| && Cals[i].0 == k && FoldString(Cals[i].1) == FoldString(name)
  {
    RegistryNamesDistinct();
    if exists i :: 0 <= i < |Cals| && Cals[i].0 == k && FoldString(Cals[i].1) == FoldString(name) {
      var i :| 0 <= i < |Cals| && Cals[i].0 == k && FoldString(Cals[i].1) == FoldString(name);
      var r := CalToId(name);
      assert r.Some?;
      var j :| 0 <= j < |Cals| && Cals[j].0 == r.value && NameMatches(Cals[j], name);
      assert i == j;
    }
  }

  /** Every registry name, in any ASCII case, resolves to its own id. */
  lemma {:induction false} DisplayNameResolves(i: int, name: string)
    requires 0 <= i < |Cals|
    requires FoldString(name) == FoldString(Cals[i].1)
    ensures CalToId(name) == Some(Cals[i].0)
  {
    CalToIdCorrect(name, Cals[i].0);
  }

  /** Names that casefold alike resolve alike. */
  lemma {:induction false} FoldedNamesAgree(entries: seq<(int, string)>, a: string, b: string)
    requires FoldString(a) == FoldString(b)
    ensures FirstMatch(entries, a) == FirstMatch(entries, b)
  {
    if |entries| > 0 {
      FoldedNamesAgree(entries[1..], a, b);
    }
  }

  /** Unknown names stay in the result as None. */
  lemma UnknownNameGivesNone(names: seq<string>, n: string)
    requires n in names
    requires forall i :: 0 <= i < |Cals| ==> FoldString(Cals[i].1) != FoldString(n)
    ensures None in CalNamesToIds(names)
  {
    assert CalToId(n) == None;
  }

  /** Names that all resolve to the same id give a single-element set, however many there are. */
  lemma SameIdCollapses(names: seq<string>, k: Option<int>)
    requires |names| > 0
    requires forall n :: n in names ==> CalToId(n) == k
    ensures CalNamesToIds(names) == {k}
  {
    var r := CalNamesToIds(names);
    assert names[0] in names;
    assert k in r;
  }

  lemma YrTenSpellings()
    ensures FoldString("Yr 10") == FoldString(Cals[3].1) && FoldString("yr 10") == FoldString(Cals[3].1)
  {
    assert Cals[3].1 == "Yr 10";
    assert FoldString("yr 10")[0] == 'y' == FoldString("Yr 10")[0];
  }

  /** Any number of case variants of one registry name collapse to that entry's single id. */
  lemma CaseVariantsCollapse(names: seq<string>, i: int)
    requires 0 <= i < |Cals| && |names| > 0
    requires forall n :: n in names ==> FoldString(n) == FoldString(Cals[i].1)
    ensures CalNamesToIds(names) == {Some(Cals[i].0)}
  {
    forall n | n in names
      ensures CalToId(n) == Some(Cals[i].0)
    {
      DisplayNameResolves(i, n);
    }
    SameIdCollapses(names, Some(Cals[i].0));
  }

  /** "Yr 10" and "yr 10" give the single id 63. */
  lemma YrTenCollapses(names: seq<string>)
    requires names == ["Yr 10", "yr 10"]
    ensures CalNamesToIds(names) == {Some(63)}
  {
    YrTenSpellings();
    CaseVariantsCollapse(names, 3);
  }
}
