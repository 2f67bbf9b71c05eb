/** `FindBestMatchingVersion` of asdf's `resolve` package: picks an installed
    version of a tool when the user asked to ignore the patch, the minor or the
    whole version of the pinned ones (ASDF_IGNORE_PATCH, ASDF_IGNORE_MINOR,
    ASDF_IGNORE_VERSION, each a space-separated list of tool names or "*").

    The installed versions (`installs.Installed`) are an injected `Result`; a
    Go panic is the outcome `Panicked`. */
module BestMatch {
  import opened Oracles
  import opened GoStrings

  /** What a call of FindBestMatchingVersion does: return a string, or panic
      (an index out of range). */
  datatype Outcome = Returned(version: string) | Panicked

  // ---------------------------------------------------------------------------
  // The ignore policies
  // ---------------------------------------------------------------------------

  /** The list held by one of the ignore variables: the value split on single
      spaces (an unset variable gives `[""]`). */
  function IgnoreList(env: map<string, string>, variable: string): seq<string>
  {
    Split(Getenv(env, variable), ' ')
  }

  /** A policy list applies to a tool when it names the tool or holds "*". */
  predicate Applies(list: seq<string>, toolName: string)
  {
    toolName in list || "*" in list
  }

  /** With none of the three variables set, a policy applies only to a tool
      whose name is empty (the list of an unset variable is `[""]`). */
  lemma UnsetPolicyAppliesOnlyToEmptyName(env: map<string, string>, variable: string, toolName: string)
    requires variable !in env
    ensures Applies(IgnoreList(env, variable), toolName) <==> toolName == ""
  {
    assert IgnoreList(env, variable) == [""];
  }

  // ---------------------------------------------------------------------------
  // Descending order
  // ---------------------------------------------------------------------------

  /** Sorted by `-strings.Compare`: no entry is below a later one. */
  predicate SortedDesc(s: seq<string>)
  {
    forall p, q :: 0 <= p < q < |s| ==> !Less(s[p], s[q])
  }

  /** The index of a greatest entry of `a[from..]`. */
  method MaxIndex(a: array<string>, from: nat) returns (m: nat)
    requires from < a.Length
    ensures from <= m < a.Length
    ensures forall k :: from <= k < a.Length ==> !Less(a[m], a[k])
  {
    m := from;
    LessIrreflexive(a[m]);
    var j := from + 1;
    while j < a.Length
      invariant from <= m < j <= a.Length
      invariant forall k :: from <= k < j ==> !Less(a[m], a[k])
    {
      if Less(a[m], a[j]) {
        LessAsymmetric(a[m], a[j]);
        forall k | from <= k < j
          ensures !Less(a[j], a[k])
        {
          AtLeastTransitive(a[j], a[m], a[k]);
        }
        LessIrreflexive(a[j]);
        m := j;
      }
      j := j + 1;
    }
  }

  /** The state of a selection sort after `i` steps: `s[..i]` is descending,
      and no entry of it is below an entry of `s[i..]`. */
  predicate SelectedPrefix(s: seq<string>, i: nat)
    requires i <= |s|
  {
    && (forall p, q :: 0 <= p < q < i ==> !Less(s[p], s[q]))
    && (forall p, q :: 0 <= p < i <= q < |s| ==> !Less(s[p], s[q]))
  }

  /** Swapping a greatest entry of `s[i..]` into place `i` extends the
      selected prefix by one. */
  lemma SelectStep(s: seq<string>, i: nat, m: nat)
    requires i <= m < |s| && SelectedPrefix(s, i)
    requires forall k :: i <= k < |s| ==> !Less(s[m], s[k])
    ensures SelectedPrefix(s[i := s[m]][m := s[i]], i + 1)
  {
    var t := s[i := s[m]][m := s[i]];
    forall p, q | 0 <= p < i + 1 <= q < |t|
      ensures !Less(t[p], t[q])
    {
      assert t[q] == s[q] || t[q] == s[i];
    }
  }

  /** `slices.SortFunc(a, func(x, y) { return -strings.Compare(x, y) })`:
      `a` ends up in descending order and holds the same strings. The Go
      library's sorting algorithm is not modelled; a selection sort with the
      same postcondition stands in for it. */
  method SortDescending(a: array<string>)
    modifies a
    ensures SortedDesc(a[..])
    ensures multiset(a[..]) == multiset(old(a[..]))
  {
    var i := 0;
    while i < a.Length
      invariant 0 <= i <= a.Length
      invariant SelectedPrefix(a[..], i)
      invariant multiset(a[..]) == multiset(old(a[..]))
    {
      var m := MaxIndex(a, i);
      ghost var s := a[..];
      a[i], a[m] := a[m], a[i];
      assert a[..] == s[i := s[m]][m := s[i]];
      SelectStep(s, i, m);
      i := i + 1;
    }
  }

  /** A greatest string of a non-empty list. */
  function MaxOf(s: seq<string>): (r: string)
    requires |s| > 0
    ensures r in s
    ensures forall x :: x in s ==> !Less(r, x)
  {
    if |s| == 1 then
      LessIrreflexive(s[0]);
      assert forall x :: x in s ==> x == s[0];
      s[0]
    else
      var rest := MaxOf(s[1..]);
      assert forall x :: x in s ==> x == s[0] || x in s[1..];
      LessTotal(s[0], rest);
      LessAsymmetric(rest, s[0]);
      if Less(s[0], rest) then
        assert forall x :: x in s[1..] ==> !Less(rest, x);
        rest
      else
        LessIrreflexive(s[0]);
        forall x | x in s[1..]
          ensures !Less(s[0], x)
        {
          AtLeastTransitive(s[0], rest, x);
        }
        s[0]
  }

  /** A list has one greatest string: any entry that no entry exceeds is it. */
  lemma MaxOfUnique(s: seq<string>, x: string)
    requires x in s
    requires forall y :: y in s ==> !Less(x, y)
    ensures MaxOf(s) == x
  {
    AtLeastAntisymmetric(x, MaxOf(s));
  }

  /** Two lists with the same strings have the same greatest one. */
  lemma MaxOfSameStrings(s: seq<string>, t: seq<string>)
    requires |s| > 0 && |t| > 0
    requires forall x :: x in s <==> x in t
    ensures MaxOf(s) == MaxOf(t)
  {
    MaxOfUnique(t, MaxOf(s));
  }

  /** The head of a non-empty descending list is its greatest string. */
  lemma SortedHeadIsMax(s: seq<string>)
    requires |s| > 0 && SortedDesc(s)
    ensures MaxOf(s) == s[0]
  {
    LessIrreflexive(s[0]);
    forall y | y in s
      ensures !Less(s[0], y)
    {
      var q :| 0 <= q < |s| && s[q] == y;
    }
    MaxOfUnique(s, s[0]);
  }

  /** Sorting is determined by its input: two descending lists with the same
      strings, counted with multiplicity, are equal. */
  lemma {:induction false} SortedUnique(s: seq<string>, t: seq<string>)
    requires SortedDesc(s) && SortedDesc(t)
    requires multiset(s) == multiset(t)
    ensures s == t
    decreases |s|
  {
    if |s| > 0 {
      SameStrings(s, t);
      assert s[0] in t;
      SortedHeadIsMax(s);
      SortedHeadIsMax(t);
      MaxOfSameStrings(s, t);
      TailStrings(s);
      TailStrings(t);
      SortedTail(s);
      SortedTail(t);
      SortedUnique(s[1..], t[1..]);
    }
  }

  lemma SameStrings(s: seq<string>, t: seq<string>)
    requires multiset(s) == multiset(t)
    ensures |s| == |t|
    ensures forall x :: x in s <==> x in t
  {
    assert |s| == |multiset(s)|;
    forall x
      ensures x in s <==> x in t
    {
      assert x in s <==> x in multiset(s);
      assert x in t <==> x in multiset(t);
    }
  }

  lemma TailStrings(s: seq<string>)
    requires |s| > 0
    ensures s == [s[0]] + s[1..]
    ensures multiset(s[1..]) == multiset(s) - multiset{s[0]}
  {
    assert s == [s[0]] + s[1..];
  }

  lemma SortedTail(s: seq<string>)
    requires |s| > 0 && SortedDesc(s)
    ensures SortedDesc(s[1..])
  {
    var rest := s[1..];
    forall p, q | 0 <= p < q < |rest|
      ensures !Less(rest[p], rest[q])
    {
      assert rest[p] == s[p + 1] && rest[q] == s[q + 1];
    }
  }

  // ---------------------------------------------------------------------------
  // Version prefixes
  // ---------------------------------------------------------------------------

  /** `strings.Split(version, ".")[0]`: the text before the first dot. */
  function Major(version: string): (m: string)
    ensures HasPrefix(version, m) && '.' !in m
    ensures |m| == |version| || version[|m|] == '.'
  {
    var pieces := Split(version, '.');
    SplitPieces(version, '.');
    assert |pieces| > 1 ==> version == pieces[0] + (['.'] + Join(pieces[1..], '.'));
    pieces[0]
  }

  /** `strings.Join(strings.Split(version, ".")[:2], ".")` for a version with
      a dot: the major part, the dot, and the text up to the next dot. */
  function MajorMinor(version: string): (mm: string)
    requires '.' in version
    ensures HasPrefix(version, mm)
    ensures |Major(version)| < |mm| && mm[..|Major(version)| + 1] == Major(version) + "."
    ensures '.' !in mm[|Major(version)| + 1..]
    ensures |mm| == |version| || version[|mm|] == '.'
  {
    var pieces := Split(version, '.');
    SplitCount(version, '.');
    SplitPieces(version, '.');
    var tail := Join(pieces[1..], '.');
    assert version == pieces[0] + ['.'] + tail;
    assert |pieces| > 2 ==> tail == pieces[1] + (['.'] + Join(pieces[2..], '.'));
    var two := pieces[..2];
    assert two[0] == pieces[0] && two[1..] == [pieces[1]];
    assert Join(two[1..], '.') == pieces[1];
    var mm := Join(two, '.');
    assert mm == pieces[0] + ['.'] + pieces[1];
    assert mm[|pieces[0]| + 1..] == pieces[1];
    mm
  }

  /** Some requested version starts with `prefix`. */
  predicate SomeHasPrefix(requested: seq<string>, prefix: string)
  {
    exists j :: 0 <= j < |requested| && HasPrefix(requested[j], prefix)
  }

  /** Some requested version starts with the installed version's
      major.minor prefix. */
  predicate PatchMatch(version: string, requested: seq<string>)
    requires '.' in version
  {
    SomeHasPrefix(requested, MajorMinor(version))
  }

  /** Some requested version starts with the installed version's major part. */
  predicate MinorMatch(version: string, requested: seq<string>)
  {
    SomeHasPrefix(requested, Major(version))
  }

  /** Whether the scan stops at `version`: with the patch policy, a version
      without a dot (the scan panics there) or one whose major.minor prefix
      matches; with the minor policy, one whose major part matches. */
  predicate Decides(version: string, requested: seq<string>, patch: bool, minor: bool)
  {
    || (patch && ('.' !in version || PatchMatch(version, requested)))
    || (minor && MinorMatch(version, requested))
  }

  /** The installed versions at which the scan would stop, in their order. */
  function Decisive(vs: seq<string>, requested: seq<string>, patch: bool, minor: bool): (d: seq<string>)
    ensures forall x :: x in d <==> x in vs && Decides(x, requested, patch, minor)
  {
    if |vs| == 0 then []
    else
      var rest := Decisive(vs[1..], requested, patch, minor);
      assert forall x :: x in vs <==> x == vs[0] || x in vs[1..];
      if Decides(vs[0], requested, patch, minor) then [vs[0]] + rest else rest
  }

  // ---------------------------------------------------------------------------
  // The specification and the scan
  // ---------------------------------------------------------------------------

  /** What FindBestMatchingVersion computes, stated without the sort: nothing
      when the installs cannot be listed; the greatest install when the
      whole version is ignored (a panic when there is none); otherwise the
      greatest install at which the scan stops, which is a panic if it is a
      version without a dot under the patch policy, and "" if there is none. */
  function BestMatching(env: map<string, string>, toolName: string,
                        installed: Result<seq<string>>, requested: seq<string>): Outcome
  {
    match installed
    case Err(_) => Returned("")
    case Ok(vs) =>
      if Applies(IgnoreList(env, "ASDF_IGNORE_VERSION"), toolName) then
        if |vs| == 0 then Panicked else Returned(MaxOf(vs))
      else
        GreatestDecisive(vs, requested,
                         Applies(IgnoreList(env, "ASDF_IGNORE_PATCH"), toolName),
                         Applies(IgnoreList(env, "ASDF_IGNORE_MINOR"), toolName))
  }

  /** The greatest install at which the scan stops: "" if there is none, a
      panic if it is a version without a dot under the patch policy. */
  function GreatestDecisive(vs: seq<string>, requested: seq<string>, patch: bool, minor: bool): Outcome
  {
    var d := Decisive(vs, requested, patch, minor);
    if |d| == 0 then Returned("")
    else if patch && '.' !in MaxOf(d) then Panicked
    else Returned(MaxOf(d))
  }

  /** The loop over the installed versions, in the order given: for each one,
      the patch check, then the minor check. */
  function Scan(available: seq<string>, requested: seq<string>, patch: bool, minor: bool): Outcome
  {
    if |available| == 0 then Returned("")
    else
      var version := available[0];
      if patch && '.' !in version then Panicked
      else if patch && PatchMatch(version, requested) then Returned(version)
      else if minor && MinorMatch(version, requested) then Returned(version)
      else Scan(available[1..], requested, patch, minor)
  }

  /** Over a descending list the scan stops at the greatest decisive version:
      it agrees with the specification's choice. */
  lemma {:induction false} ScanFindsGreatestDecisive(
    available: seq<string>, requested: seq<string>, patch: bool, minor: bool)
    requires SortedDesc(available)
    ensures Scan(available, requested, patch, minor) == GreatestDecisive(available, requested, patch, minor)
    decreases |available|
  {
    if |available| > 0 {
      var v := available[0];
      var d := Decisive(available, requested, patch, minor);
      var rest := available[1..];
      SortedTail(available);
      if Decides(v, requested, patch, minor) {
        LessIrreflexive(v);
        forall y | y in d
          ensures !Less(v, y)
        {
          var q :| 0 <= q < |available| && available[q] == y;
        }
        MaxOfUnique(d, v);
      } else {
        ScanFindsGreatestDecisive(rest, requested, patch, minor);
        forall x
          ensures x in d <==> x in Decisive(rest, requested, patch, minor)
        {
          assert x in available <==> x == v || x in rest;
        }
        if |d| > 0 {
          assert d[0] in Decisive(rest, requested, patch, minor);
          MaxOfSameStrings(d, Decisive(rest, requested, patch, minor));
        }
      }
    }
  }

  /** The scan over the sorted installs finds what the specification
      chooses among the installs in any order. */
  lemma ScanOfSortedInstalls(available: seq<string>, vs: seq<string>, requested: seq<string>,
                             patch: bool, minor: bool)
    requires SortedDesc(available) && multiset(available) == multiset(vs)
    ensures Scan(available, requested, patch, minor) == GreatestDecisive(vs, requested, patch, minor)
  {
    ScanFindsGreatestDecisive(available, requested, patch, minor);
    SameStrings(available, vs);
    var d1 := Decisive(available, requested, patch, minor);
    var d2 := Decisive(vs, requested, patch, minor);
    if |d1| > 0 {
      assert d1[0] in d2;
      MaxOfSameStrings(d1, d2);
    }
  }

  /** When some installed version decides the scan, the result is one of
      them, and no other is greater; when none does, the result is "". */
  lemma BestMatchingIsGreatestMatch(env: map<string, string>, toolName: string,
                                    vs: seq<string>, requested: seq<string>)
    requires !Applies(IgnoreList(env, "ASDF_IGNORE_VERSION"), toolName)
    requires BestMatching(env, toolName, Ok(vs), requested).Returned?
    ensures var patch := Applies(IgnoreList(env, "ASDF_IGNORE_PATCH"), toolName);
      var minor := Applies(IgnoreList(env, "ASDF_IGNORE_MINOR"), toolName);
      var v := BestMatching(env, toolName, Ok(vs), requested).version;
      && ((forall w :: w in vs ==> !Decides(w, requested, patch, minor)) ==> v == "")
      && ((exists w :: w in vs && Decides(w, requested, patch, minor)) ==>
            && v in vs && Decides(v, requested, patch, minor)
            && forall w :: w in vs && Decides(w, requested, patch, minor) ==> !Less(v, w))
  {
    var patch := Applies(IgnoreList(env, "ASDF_IGNORE_PATCH"), toolName);
    var minor := Applies(IgnoreList(env, "ASDF_IGNORE_MINOR"), toolName);
    var d := Decisive(vs, requested, patch, minor);
    if exists w :: w in vs && Decides(w, requested, patch, minor) {
      var w :| w in vs && Decides(w, requested, patch, minor);
      assert w in d;
    }
  }

  /** With ASDF_IGNORE_PATCH naming the tool, an install with the requested
      major.minor is chosen over a newer one, and an older one does not match. */
  lemma IgnorePatchExample()
    ensures BestMatching(map["ASDF_IGNORE_PATCH" := "nodejs"], "nodejs",
                         Ok(["14.2.1", "14.3.0", "15.0.0"]), ["14.3.5"])
            == Returned("14.3.0")
  {
    var env := map["ASDF_IGNORE_PATCH" := "nodejs"];
    UnsetPolicyAppliesOnlyToEmptyName(env, "ASDF_IGNORE_VERSION", "nodejs");
    UnsetPolicyAppliesOnlyToEmptyName(env, "ASDF_IGNORE_MINOR", "nodejs");
    SplitWithoutSeparator("nodejs", ' ');
    assert IgnoreList(env, "ASDF_IGNORE_PATCH") == ["nodejs"];
    var d := Decisive(["14.2.1", "14.3.0", "15.0.0"], ["14.3.5"], true, false);
    PatchExampleSameMinor();
    PatchExampleOlderMinor();
    PatchExampleNewerMajor();
    assert "14.3.0" in d;
    forall y | y in d
      ensures !Less("14.3.0", y)
    {
      assert y == "14.2.1" || y == "14.3.0" || y == "15.0.0";
    }
    LessIrreflexive("14.3.0");
    MaxOfUnique(d, "14.3.0");
  }

  /** Of 14.2.1, 14.3.0 and 15.0.0, only 14.3.0 shares its major.minor with 14.3.5. */
  lemma PatchExampleSameMinor()
    ensures Decides("14.3.0", ["14.3.5"], true, false)
  {
    PatchDecidesOnThree("14", "3", "0", ["14.3.5"]);
    assert "14" + "." + "3" + "." + "0" == "14.3.0";
    SomeHasPrefixOfOne("14.3.5", "14.3");
    assert "14.3.5"[..4] == "14.3";
  }

  lemma PatchExampleOlderMinor()
    ensures !Decides("14.2.1", ["14.3.5"], true, false)
  {
    PatchDecidesOnThree("14", "2", "1", ["14.3.5"]);
    assert "14" + "." + "2" + "." + "1" == "14.2.1";
    SomeHasPrefixOfOne("14.3.5", "14.2");
    assert "14.3.5"[3] != "14.2"[3];
  }

  lemma PatchExampleNewerMajor()
    ensures !Decides("15.0.0", ["14.3.5"], true, false)
  {
    PatchDecidesOnThree("15", "0", "0", ["14.3.5"]);
    assert "15" + "." + "0" + "." + "0" == "15.0.0";
    SomeHasPrefixOfOne("14.3.5", "15.0");
    assert "14.3.5"[1] != "15.0"[1];
  }

  /** Under the patch policy alone, a version `x.y.z` decides the scan exactly
      when a request starts with `x.y`. */
  lemma PatchDecidesOnThree(x: string, y: string, z: string, requested: seq<string>)
    requires '.' !in x && '.' !in y && '.' !in z
    ensures Decides(x + "." + y + "." + z, requested, true, false)
      <==> SomeHasPrefix(requested, x + "." + y)
  {
    SplitsInThree(x, y, z);
    assert (x + "." + y + "." + z)[|x|] == '.';
  }

  /** The minor check compares text, not numbers: under ASDF_IGNORE_MINOR an
      install of major version 1 matches a request for version 10. */
  lemma MinorPrefixIsTextual()
    ensures BestMatching(map["ASDF_IGNORE_MINOR" := "*"], "ruby", Ok(["1.2.0"]), ["10.0.0"])
            == Returned("1.2.0")
  {
    var env := map["ASDF_IGNORE_MINOR" := "*"];
    UnsetPolicyAppliesOnlyToEmptyName(env, "ASDF_IGNORE_VERSION", "ruby");
    UnsetPolicyAppliesOnlyToEmptyName(env, "ASDF_IGNORE_PATCH", "ruby");
    SplitWithoutSeparator("*", ' ');
    assert IgnoreList(env, "ASDF_IGNORE_MINOR") == ["*"];
    SplitsInThree("1", "2", "0");
    assert HasPrefix(["10.0.0"][0], "1");
    var d := Decisive(["1.2.0"], ["10.0.0"], false, true);
    assert d == ["1.2.0"];
    MaxOfUnique(d, "1.2.0");
  }

  /** With no policy variable set, a named tool gets "" whatever is installed. */
  lemma NoPolicyNoMatch(env: map<string, string>, toolName: string,
                        vs: seq<string>, requested: seq<string>)
    requires "ASDF_IGNORE_PATCH" !in env && "ASDF_IGNORE_MINOR" !in env
    requires "ASDF_IGNORE_VERSION" !in env
    requires toolName != ""
    ensures BestMatching(env, toolName, Ok(vs), requested) == Returned("")
  {
    UnsetPolicyAppliesOnlyToEmptyName(env, "ASDF_IGNORE_VERSION", toolName);
    UnsetPolicyAppliesOnlyToEmptyName(env, "ASDF_IGNORE_PATCH", toolName);
    UnsetPolicyAppliesOnlyToEmptyName(env, "ASDF_IGNORE_MINOR", toolName);
  }

  /** ASDF_IGNORE_VERSION="*" returns the greatest install for every tool,
      whatever was requested, and panics when nothing is installed. */
  lemma IgnoreVersionTakesGreatest(env: map<string, string>, toolName: string,
                                   vs: seq<string>, requested: seq<string>)
    requires Getenv(env, "ASDF_IGNORE_VERSION") == "*"
    ensures var r := BestMatching(env, toolName, Ok(vs), requested);
      && (|vs| == 0 <==> r == Panicked)
      && (|vs| > 0 ==> r.Returned? && r.version in vs && forall w :: w in vs ==> !Less(r.version, w))
  {
    SplitWithoutSeparator("*", ' ');
  }

  /** The order is that of the strings, not of version numbers: "9.0.0" is
      greater than "10.0.0". */
  lemma IgnoreVersionIsLexicographic()
    ensures BestMatching(map["ASDF_IGNORE_VERSION" := "*"], "nodejs",
                         Ok(["10.0.0", "9.0.0"]), ["10.0.0"])
            == Returned("9.0.0")
  {
    var env := map["ASDF_IGNORE_VERSION" := "*"];
    IgnoreVersionTakesGreatest(env, "nodejs", ["10.0.0", "9.0.0"], ["10.0.0"]);
    assert Less("10.0.0", "9.0.0");
  }

  /** An unset variable splits into `[""]`, so with no policy variable set a
      tool with the empty name still falls under ASDF_IGNORE_VERSION. */
  lemma EmptyToolNameTakesGreatest(env: map<string, string>, vs: seq<string>, requested: seq<string>)
    requires "ASDF_IGNORE_VERSION" !in env
    ensures BestMatching(env, "", Ok(vs), requested)
            == if |vs| == 0 then Panicked else Returned(MaxOf(vs))
  {
    UnsetPolicyAppliesOnlyToEmptyName(env, "ASDF_IGNORE_VERSION", "");
  }

  /** The prefixes of a concrete version `x.y.z`. */
  lemma SplitsInThree(x: string, y: string, z: string)
    requires '.' !in x && '.' !in y && '.' !in z
    ensures Major(x + "." + y + "." + z) == x
    ensures MajorMinor(x + "." + y + "." + z) == x + "." + y
  {
    var v := x + "." + y + "." + z;
    assert Join([x, y, z], '.') == v by {
      assert [x, y, z][1..] == [y, z] && [y, z][1..] == [z];
      assert Join([y, z], '.') == y + ['.'] + z;
      assert Join([x, y, z], '.') == x + ['.'] + (y + ['.'] + z);
    }
    SplitJoin([x, y, z], '.');
    assert Split(v, '.') == [x, y, z];
    assert Split(v, '.')[..2] == [x, y] && [x, y][1..] == [y];
    assert Join([x, y], '.') == x + "." + y;
  }

  /** The requested versions matter only as a collection: reordering them
      (as FindBestMatchingVersion does when it sorts them) changes nothing. */
  lemma RequestOrderIrrelevant(env: map<string, string>, toolName: string,
                               installed: Result<seq<string>>, r1: seq<string>, r2: seq<string>)
    requires multiset(r1) == multiset(r2)
    ensures BestMatching(env, toolName, installed, r1) == BestMatching(env, toolName, installed, r2)
  {
    forall x
      ensures x in r1 <==> x in r2
    {
      assert x in r1 <==> x in multiset(r1);
      assert x in r2 <==> x in multiset(r2);
    }
    if installed.Ok? {
      var vs := installed.value;
      var patch := Applies(IgnoreList(env, "ASDF_IGNORE_PATCH"), toolName);
      var minor := Applies(IgnoreList(env, "ASDF_IGNORE_MINOR"), toolName);
      var d1 := Decisive(vs, r1, patch, minor);
      var d2 := Decisive(vs, r2, patch, minor);
      forall w | w in vs
        ensures Decides(w, r1, patch, minor) <==> Decides(w, r2, patch, minor)
      {
        SameMatches(w, r1, r2);
      }
      if |d1| > 0 {
        assert d1[0] in d2;
        MaxOfSameStrings(d1, d2);
      }
    }
  }

  lemma SomeHasPrefixOfOne(request: string, prefix: string)
    ensures SomeHasPrefix([request], prefix) <==> HasPrefix(request, prefix)
  {
    if HasPrefix(request, prefix) {
      assert HasPrefix([request][0], prefix);
    }
  }

  /** Two request lists with the same strings match the same installs. */
  lemma SameMatches(w: string, r1: seq<string>, r2: seq<string>)
    requires forall x :: x in r1 <==> x in r2
    ensures '.' in w ==> (PatchMatch(w, r1) <==> PatchMatch(w, r2))
    ensures MinorMatch(w, r1) <==> MinorMatch(w, r2)
  {
    SomeHasPrefixSameStrings(r1, r2, Major(w));
    SomeHasPrefixSameStrings(r2, r1, Major(w));
    if '.' in w {
      SomeHasPrefixSameStrings(r1, r2, MajorMinor(w));
      SomeHasPrefixSameStrings(r2, r1, MajorMinor(w));
    }
  }

  lemma SomeHasPrefixSameStrings(r1: seq<string>, r2: seq<string>, prefix: string)
    requires forall x :: x in r1 ==> x in r2
    ensures SomeHasPrefix(r1, prefix) ==> SomeHasPrefix(r2, prefix)
  {
    if SomeHasPrefix(r1, prefix) {
      var j :| 0 <= j < |r1| && HasPrefix(r1[j], prefix);
      assert r1[j] in r2;
      var k :| 0 <= k < |r2| && r2[k] == r1[j];
    }
  }

  // ---------------------------------------------------------------------------
  // The imperative code
  // ---------------------------------------------------------------------------

  /** `for _, v := range versions { if strings.HasPrefix(v, prefix) { ... } }`:
      whether some requested version starts with `prefix`. */
  method AnyHasPrefix(versions: array<string>, prefix: string) returns (found: bool)
    ensures found <==> SomeHasPrefix(versions[..], prefix)
  {
    var j := 0;
    while j < versions.Length
      invariant 0 <= j <= versions.Length
      invariant forall k :: 0 <= k < j ==> !HasPrefix(versions[k], prefix)
    {
      if HasPrefix(versions[j], prefix) {
        assert versions[..][j] == versions[j];
        return true;
      }
      j := j + 1;
    }
    return false;
  }

  /** The loop over the sorted installs: for each, the patch check (a panic
      on a version without a dot), then the minor check. */
  method ScanInstalled(available: array<string>, versions: array<string>, toolName: string,
                       ignorePatches: seq<string>, ignoreMinors: seq<string>) returns (r: Outcome)
    ensures r == Scan(available[..], versions[..], Applies(ignorePatches, toolName),
                      Applies(ignoreMinors, toolName))
  {
    ghost var patch := Applies(ignorePatches, toolName);
    ghost var minor := Applies(ignoreMinors, toolName);
    var i := 0;
    while i < available.Length
      invariant 0 <= i <= available.Length
      invariant Scan(available[..], versions[..], patch, minor)
             == Scan(available[i..], versions[..], patch, minor)
    {
      var version := available[i];
      assert available[i..][0] == version && available[i..][1..] == available[i + 1..];
      if Applies(ignorePatches, toolName) {
        var pieces := Split(version, '.');
        SplitCount(version, '.');
        if |pieces| < 2 {
          return Panicked;
        }
        var majorMinor := Join(pieces[..2], '.');
        var found := AnyHasPrefix(versions, majorMinor);
        if found {
          return Returned(version);
        }
      }
      if Applies(ignoreMinors, toolName) {
        var major := Split(version, '.')[0];
        var found := AnyHasPrefix(versions, major);
        if found {
          return Returned(version);
        }
      }
      i := i + 1;
    }
    return Returned("");
  }

  /** `FindBestMatchingVersion`: the outcome the specification chooses for
      the requested versions as they were passed in; the caller's `versions`
      slice is sorted in place (descending) unless the call returns early. */
  method FindBestMatchingVersion(env: map<string, string>, toolName: string,
                                 installed: Result<seq<string>>, versions: array<string>)
    returns (r: Outcome)
    modifies versions
    ensures r == BestMatching(env, toolName, installed, old(versions[..]))
    ensures multiset(versions[..]) == multiset(old(versions[..]))
    ensures (installed.Ok? && !Applies(IgnoreList(env, "ASDF_IGNORE_VERSION"), toolName))
              ==> SortedDesc(versions[..])
    ensures (installed.Err? || Applies(IgnoreList(env, "ASDF_IGNORE_VERSION"), toolName))
              ==> versions[..] == old(versions[..])
  {
    if installed.Err? {
      return Returned("");
    }
    var vs := installed.value;
    var ignorePatches := Split(Getenv(env, "ASDF_IGNORE_PATCH"), ' ');
    var ignoreMinors := Split(Getenv(env, "ASDF_IGNORE_MINOR"), ' ');
    var ignoreVersions := Split(Getenv(env, "ASDF_IGNORE_VERSION"), ' ');
    var available := new string[|vs|](k requires 0 <= k < |vs| => vs[k]);
    assert available[..] == vs;
    SortDescending(available);
    if Applies(ignoreVersions, toolName) {
      if available.Length == 0 {
        return Panicked;
      }
      SortedHeadIsMax(available[..]);
      SameStrings(available[..], vs);
      MaxOfSameStrings(available[..], vs);
      return Returned(available[0]);
    }
    if |ignorePatches| == 0 && |ignoreMinors| == 0 {
      assert false;
      return Returned("");
    }
    ghost var requested := versions[..];
    SortDescending(versions);
    r := ScanInstalled(available, versions, toolName, ignorePatches, ignoreMinors);
    ScanOfSortedInstalls(available[..], vs, versions[..],
                         Applies(ignorePatches, toolName), Applies(ignoreMinors, toolName));
    RequestOrderIrrelevant(env, toolName, installed, requested, versions[..]);
  }
}
