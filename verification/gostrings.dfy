/** The parts of Go's `strings` package that resolve.go relies on, on strings
    seen as sequences of Unicode code points (a valid UTF-8 Go string decoded).
    Because UTF-8 preserves code-point order, `strings.Compare` on the bytes
    agrees with the lexicographic order on code points defined here. */
module GoStrings {

  // ---------------------------------------------------------------------------
  // strings.Split and strings.Join with a one-character separator
  // ---------------------------------------------------------------------------

  /** `strings.Join(parts, string(sep))`: the parts in order with one
      separator between neighbours, so the result starts with the first part
      and ends with the last. */
  function Join(parts: seq<string>, sep: char): (r: string)
    ensures |parts| == 0 ==> r == ""
    ensures |parts| > 0 ==> |parts[0]| <= |r|
  {
    if |parts| == 0 then ""
    else if |parts| == 1 then parts[0]
    else parts[0] + [sep] + Join(parts[1..], sep)
  }

  /** A joined list starts with its first part and ends with its last, and
      holds the separator once there are two parts. */
  lemma {:induction false} JoinEnds(parts: seq<string>, sep: char)
    requires |parts| > 0
    ensures var r := Join(parts, sep);
      && r[..|parts[0]|] == parts[0]
      && |parts[|parts| - 1]| <= |r|
      && r[|r| - |parts[|parts| - 1]|..] == parts[|parts| - 1]
      && (|parts| >= 2 ==> sep in r)
  {
    if |parts| >= 2 {
      var rest := Join(parts[1..], sep);
      JoinEnds(parts[1..], sep);
      var r := parts[0] + [sep] + rest;
      assert Join(parts, sep) == r;
      assert r[|parts[0]|] == sep;
      assert r[|r| - |rest|..] == rest;
    }
  }

  /** `strings.Split(s, string(sep))`: the pieces between separators, never an
      empty list (`Split("")` is `[""]`); joining them back gives `s`. */
  function Split(s: string, sep: char): (r: seq<string>)
    ensures |r| >= 1
    decreases |s|
  {
    if |s| == 0 then [""]
    else
      var rest := Split(s[1..], sep);
      if s[0] == sep then [""] + rest
      else [[s[0]] + rest[0]] + rest[1..]
  }

  /** No piece holds the separator, and joining the pieces gives `s` back. */
  lemma SplitPieces(s: string, sep: char)
    ensures var r := Split(s, sep);
      && (forall i :: 0 <= i < |r| ==> sep !in r[i])
      && Join(r, sep) == s
  {
    SplitPiecesFree(s, sep);
    SplitJoinsBack(s, sep);
  }

  lemma {:induction false} SplitPiecesFree(s: string, sep: char)
    ensures forall i :: 0 <= i < |Split(s, sep)| ==> sep !in Split(s, sep)[i]
    decreases |s|
  {
    if |s| > 0 {
      var rest := Split(s[1..], sep);
      SplitPiecesFree(s[1..], sep);
      if s[0] != sep {
        var r := Split(s, sep);
        assert r == [[s[0]] + rest[0]] + rest[1..];
        forall i | 0 <= i < |r|
          ensures sep !in r[i]
        {
          if i > 0 {
            assert r[i] == rest[i];
          }
        }
      }
    }
  }

  lemma {:induction false} SplitJoinsBack(s: string, sep: char)
    ensures Join(Split(s, sep), sep) == s
    decreases |s|
  {
    if |s| > 0 {
      var rest := Split(s[1..], sep);
      SplitJoinsBack(s[1..], sep);
      var r := Split(s, sep);
      assert s == [s[0]] + s[1..];
      if s[0] == sep {
        assert r == [""] + rest;
        assert r[1..] == rest;
        assert Join(r, sep) == "" + [sep] + Join(rest, sep);
      } else if |rest| == 1 {
        assert r == [[s[0]] + rest[0]];
        assert Join(rest, sep) == rest[0];
      } else {
        assert r == [[s[0]] + rest[0]] + rest[1..];
        assert r[1..] == rest[1..];
        assert Join(rest, sep) == rest[0] + [sep] + Join(rest[1..], sep);
        assert Join(r, sep) == ([s[0]] + rest[0]) + [sep] + Join(rest[1..], sep);
      }
    }
  }

  /** Splitting a separator-free prefix off the front of a string. */
  lemma {:induction false} SplitFreePrefix(a: string, t: string, sep: char)
    requires sep !in a
    ensures Split(a + t, sep) == [a + Split(t, sep)[0]] + Split(t, sep)[1..]
    decreases |a|
  {
    var r := Split(t, sep);
    if |a| == 0 {
      assert a + t == t && a + r[0] == r[0];
      assert r == [r[0]] + r[1..];
    } else {
      var a' := a[1..];
      SplitFreePrefix(a', t, sep);
      var s := a + t;
      assert s[0] == a[0] != sep && s[1..] == a' + t;
      var rest := Split(a' + t, sep);
      assert a == [a[0]] + a';
      calc {
        Split(s, sep);
        [[a[0]] + rest[0]] + rest[1..];
        [[a[0]] + (a' + r[0])] + r[1..];
        { assert [a[0]] + (a' + r[0]) == a + r[0]; }
        [a + r[0]] + r[1..];
      }
    }
  }

  /** Split undoes Join when no part contains the separator. */
  lemma {:induction false} SplitJoin(parts: seq<string>, sep: char)
    requires |parts| >= 1
    requires forall i :: 0 <= i < |parts| ==> sep !in parts[i]
    ensures Split(Join(parts, sep), sep) == parts
  {
    if |parts| == 1 {
      SplitFreePrefix(parts[0], "", sep);
      assert parts[0] + "" == parts[0];
    } else {
      var tail := Join(parts[1..], sep);
      SplitJoin(parts[1..], sep);
      assert Join(parts, sep) == parts[0] + ([sep] + tail);
      SplitFreePrefix(parts[0], [sep] + tail, sep);
      assert ([sep] + tail)[1..] == tail;
      assert Split([sep] + tail, sep) == [""] + parts[1..];
      assert parts[0] + "" == parts[0];
    }
  }

  /** A string without the separator is one piece. */
  lemma SplitWithoutSeparator(s: string, sep: char)
    requires sep !in s
    ensures Split(s, sep) == [s]
  {
    SplitFreePrefix(s, "", sep);
    assert s + "" == s;
  }

  /** Every character of a piece is a character of the split string. */
  lemma {:induction false} SplitKeepsCharacters(s: string, sep: char, c: char)
    requires c !in s
    ensures forall i :: 0 <= i < |Split(s, sep)| ==> c !in Split(s, sep)[i]
    decreases |s|
  {
    if |s| > 0 {
      assert s == [s[0]] + s[1..];
      SplitKeepsCharacters(s[1..], sep, c);
    }
  }

  /** A string splits into more than one piece exactly when it contains the
      separator. */
  lemma SplitCount(s: string, sep: char)
    ensures |Split(s, sep)| >= 2 <==> sep in s
  {
    var r := Split(s, sep);
    SplitPieces(s, sep);
    if |r| == 1 {
      assert s == r[0];
    } else {
      assert s == r[0] + [sep] + Join(r[1..], sep);
      assert s[|r[0]|] == sep;
    }
  }

  // ---------------------------------------------------------------------------
  // strings.TrimSpace
  // ---------------------------------------------------------------------------

  /** `unicode.IsSpace`: the code points with the Unicode White_Space property. */
  predicate IsSpace(c: char)
  {
    || c == ' '
    || ('\t' <= c <= '\r')
    || c == '\U{0085}' || c == '\U{00A0}' || c == '\U{1680}'
    || ('\U{2000}' <= c <= '\U{200A}')
    || c == '\U{2028}' || c == '\U{2029}' || c == '\U{202F}'
    || c == '\U{205F}' || c == '\U{3000}'
  }

  /** `strings.TrimLeftFunc(s, unicode.IsSpace)`. */
  function TrimLeft(s: string): string
  {
    if |s| > 0 && IsSpace(s[0]) then TrimLeft(s[1..]) else s
  }

  /** `strings.TrimRightFunc(s, unicode.IsSpace)`. */
  function TrimRight(s: string): string
  {
    if |s| > 0 && IsSpace(s[|s| - 1]) then TrimRight(s[..|s| - 1]) else s
  }

  /** `strings.TrimSpace`. */
  function TrimSpace(s: string): string
  {
    TrimRight(TrimLeft(s))
  }

  /** TrimLeft drops a prefix made only of white space and stops at the first
      other character. */
  lemma {:induction false} TrimLeftDropsSpace(s: string)
    ensures var r := TrimLeft(s);
      && |r| <= |s| && r == s[|s| - |r|..]
      && (forall k :: 0 <= k < |s| - |r| ==> IsSpace(s[k]))
      && (r == [] || !IsSpace(r[0]))
  {
    if |s| > 0 && IsSpace(s[0]) {
      TrimLeftDropsSpace(s[1..]);
    }
  }

  /** TrimRight drops a suffix made only of white space and stops at the last
      other character. */
  lemma {:induction false} TrimRightDropsSpace(s: string)
    ensures var r := TrimRight(s);
      && |r| <= |s| && r == s[..|r|]
      && (forall k :: |r| <= k < |s| ==> IsSpace(s[k]))
      && (r == [] || !IsSpace(r[|r| - 1]))
  {
    if |s| > 0 && IsSpace(s[|s| - 1]) {
      TrimRightDropsSpace(s[..|s| - 1]);
    }
  }

  /** TrimSpace returns the slice `s[i..i + |r|]` of its input, from the first
      to the last character that is not white space. */
  lemma TrimSpaceSlice(s: string) returns (i: nat)
    ensures var r := TrimSpace(s);
      && i + |r| <= |s| && r == s[i..i + |r|]
      && (forall k :: 0 <= k < i ==> IsSpace(s[k]))
      && (forall k :: i + |r| <= k < |s| ==> IsSpace(s[k]))
      && (r == [] || (!IsSpace(r[0]) && !IsSpace(r[|r| - 1])))
  {
    var l := TrimLeft(s);
    TrimLeftDropsSpace(s);
    TrimRightDropsSpace(l);
    i := |s| - |l|;
    var r := TrimRight(l);
    assert r == l[..|r|];
    forall k | i + |r| <= k < |s|
      ensures IsSpace(s[k])
    {
      assert s[k] == l[k - i];
    }
    if r != [] {
      assert r[0] == l[0];
    }
  }

  /** A string of white space only trims to the empty string. */
  lemma TrimSpaceOfBlank(s: string)
    requires forall k :: 0 <= k < |s| ==> IsSpace(s[k])
    ensures TrimSpace(s) == ""
  {
    var i := TrimSpaceSlice(s);
  }

  /** A string with no white space at either end is kept as it is. */
  lemma TrimSpaceOfTrimmed(s: string)
    requires |s| > 0 && !IsSpace(s[0]) && !IsSpace(s[|s| - 1])
    ensures TrimSpace(s) == s
  {
    var i := TrimSpaceSlice(s);
    assert s[0..|s|] == s;
  }

  /** A character that is not in `s` is not in its trimmed form. */
  lemma TrimSpaceKeepsCharacters(s: string, c: char)
    requires c !in s
    ensures c !in TrimSpace(s)
  {
    var i := TrimSpaceSlice(s);
    var r := TrimSpace(s);
    forall k | 0 <= k < |r|
      ensures r[k] != c
    {
      assert r[k] == s[i + k];
    }
  }

  // ---------------------------------------------------------------------------
  // strings.ToUpper, restricted to ASCII letters
  // ---------------------------------------------------------------------------

  function UpperChar(c: char): char
  {
    if 'a' <= c <= 'z' then (c as int - 32) as char else c
  }

  /** `strings.ToUpper` for ASCII: every letter a-z becomes A-Z, every other
      character is kept, position by position. */
  function ToUpper(s: string): (r: string)
    ensures |r| == |s|
    ensures forall i :: 0 <= i < |s| ==> r[i] == UpperChar(s[i])
  {
    if |s| == 0 then "" else [UpperChar(s[0])] + ToUpper(s[1..])
  }

  // ---------------------------------------------------------------------------
  // strings.HasPrefix and strings.Compare
  // ---------------------------------------------------------------------------

  /** `strings.HasPrefix(s, prefix)`: `s` is at least as long as `prefix`
      and starts with it. */
  predicate HasPrefix(s: string, prefix: string): (b: bool)
    ensures b ==> |prefix| <= |s|
  {
    |prefix| <= |s| && s[..|prefix|] == prefix
  }

  /** `HasPrefix` agrees with its character-by-character reading, and a string
      with a prefix is that prefix followed by the rest. */
  lemma HasPrefixPointwise(s: string, prefix: string)
    ensures HasPrefix(s, prefix) <==> |prefix| <= |s| && forall i :: 0 <= i < |prefix| ==> s[i] == prefix[i]
    ensures HasPrefix(s, prefix) ==> s == prefix + s[|prefix|..]
  {
  }

  /** `strings.Compare(a, b) < 0`: lexicographic order, a proper prefix first. */
  predicate Less(a: string, b: string)
  {
    if |a| == 0 then |b| > 0
    else if |b| == 0 then false
    else if a[0] != b[0] then a[0] < b[0]
    else Less(a[1..], b[1..])
  }

  lemma {:induction false} LessIrreflexive(a: string)
    ensures !Less(a, a)
  {
    if |a| > 0 {
      LessIrreflexive(a[1..]);
    }
  }

  lemma {:induction false} LessAsymmetric(a: string, b: string)
    ensures Less(a, b) ==> !Less(b, a)
  {
    if |a| > 0 && |b| > 0 && a[0] == b[0] {
      LessAsymmetric(a[1..], b[1..]);
    }
  }

  lemma {:induction false} LessTransitive(a: string, b: string, c: string)
    ensures Less(a, b) && Less(b, c) ==> Less(a, c)
  {
    if |a| > 0 && |b| > 0 && |c| > 0 && a[0] == b[0] == c[0] {
      LessTransitive(a[1..], b[1..], c[1..]);
    }
  }

  /** Any two different strings are ordered one way or the other. */
  lemma {:induction false} LessTotal(a: string, b: string)
    ensures a == b || Less(a, b) || Less(b, a)
  {
    if |a| > 0 && |b| > 0 && a[0] == b[0] {
      LessTotal(a[1..], b[1..]);
      if a[1..] == b[1..] {
        assert a == [a[0]] + a[1..] && b == [b[0]] + b[1..];
      }
    }
  }

  /** "Not less" is a total preorder: transitive, and antisymmetric. */
  lemma AtLeastTransitive(a: string, b: string, c: string)
    ensures !Less(a, b) && !Less(b, c) ==> !Less(a, c)
  {
    LessTotal(a, b);
    LessTotal(b, c);
    LessTransitive(c, b, a);
    LessAsymmetric(a, c);
  }

  lemma AtLeastAntisymmetric(a: string, b: string)
    ensures !Less(a, b) && !Less(b, a) ==> a == b
  {
    LessTotal(a, b);
  }
}
