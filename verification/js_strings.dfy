/**
 * The JavaScript string operations the pipeline relies on: `toLowerCase`
 * (ASCII letters only), `trim`/`trimStart`, `includes`, `indexOf`,
 * `split` on a literal separator, `join`, and the truthiness of strings.
 */
module JsStrings {
  import opened Wrappers

  /** `toLowerCase` of one character, restricted to ASCII letters. */
  function LowerChar(c: char): char
  {
    if 'A' <= c <= 'Z' then (c as int + 32) as char else c
  }

  predicate IsAsciiUpper(c: char)
  {
    'A' <= c <= 'Z'
  }

  /** `s.toLowerCase()`: every character lowered on its own, no upper-case ASCII letter left. */
  function Lower(s: string): (r: string)
    ensures |r| == |s|
    ensures forall i :: 0 <= i < |s| ==> r[i] == LowerChar(s[i])
    ensures forall i :: 0 <= i < |r| ==> !IsAsciiUpper(r[i])
  {
    if s == [] then [] else [LowerChar(s[0])] + Lower(s[1..])
  }

  lemma LowerAppend(s: string, t: string)
    ensures Lower(s + t) == Lower(s) + Lower(t)
  {
    forall i | 0 <= i < |s + t|
      ensures Lower(s + t)[i] == (Lower(s) + Lower(t))[i]
    {
      if i < |s| {
        assert (s + t)[i] == s[i];
      } else {
        assert (s + t)[i] == t[i - |s|];
      }
    }
  }

  lemma LowerIdempotent(s: string)
    ensures Lower(Lower(s)) == Lower(s)
  {
  }

  /** The characters `trim` and `parseInt` skip: WhiteSpace and LineTerminator of ECMAScript. */
  predicate IsJsSpace(c: char)
  {
    || c == '\t' || c == '\n' || c == '\U{B}' || c == '\U{C}' || c == '\r' || c == ' '
    || c == '\U{A0}' || c == '\U{1680}' || ('\U{2000}' <= c <= '\U{200A}')
    || c == '\U{2028}' || c == '\U{2029}' || c == '\U{202F}' || c == '\U{205F}'
    || c == '\U{3000}' || c == '\U{FEFF}'
  }

  /** `s` is blank: every character is whitespace. */
  predicate AllSpace(s: string)
  {
    forall i :: 0 <= i < |s| ==> IsJsSpace(s[i])
  }

  /** `s.trimStart()`: drops the longest all-whitespace prefix. */
  function TrimStart(s: string): (r: string)
    ensures |r| <= |s| && r == s[|s| - |r|..]
    ensures forall i :: 0 <= i < |s| - |r| ==> IsJsSpace(s[i])
    ensures r != [] ==> !IsJsSpace(r[0])
  {
    if s != [] && IsJsSpace(s[0]) then
      var r := TrimStart(s[1..]);
      TrimStartStep(s, r);
      r
    else s
  }

  /** Skipping one leading blank keeps the skipped prefix all blank. */
  lemma TrimStartStep(s: string, r: string)
    requires s != [] && IsJsSpace(s[0])
    requires |r| <= |s| - 1 && r == s[1..][|s| - 1 - |r|..]
    requires forall i :: 0 <= i < |s| - 1 - |r| ==> IsJsSpace(s[1..][i])
    ensures r == s[|s| - |r|..]
    ensures forall i :: 0 <= i < |s| - |r| ==> IsJsSpace(s[i])
  {
    forall i | 0 < i < |s| - |r|
      ensures IsJsSpace(s[i])
    {
      assert s[i] == s[1..][i - 1];
    }
  }

  /** `s.trimEnd()`: drops the longest all-whitespace suffix. */
  function TrimEnd(s: string): (r: string)
    ensures |r| <= |s| && r == s[..|r|]
    ensures forall i :: |r| <= i < |s| ==> IsJsSpace(s[i])
    ensures r != [] ==> !IsJsSpace(r[|r| - 1])
    ensures s != [] && !IsJsSpace(s[|s| - 1]) ==> r == s
  {
    if s != [] && IsJsSpace(s[|s| - 1]) then TrimEnd(s[..|s| - 1]) else s
  }

  /** `s.trim()`: blank exactly when `s` is all whitespace, and a no-op on a string with no whitespace at its ends. */
  function Trim(s: string): (r: string)
    ensures r != [] ==> !IsJsSpace(r[0]) && !IsJsSpace(r[|r| - 1])
    ensures r == [] <==> AllSpace(s)
    ensures (s == [] || (!IsJsSpace(s[0]) && !IsJsSpace(s[|s| - 1]))) ==> r == s
    ensures Contains(s, r)
  {
    var r := TrimEnd(TrimStart(s));
    TrimFacts(s, r);
    r
  }

  lemma TrimFacts(s: string, r: string)
    requires r == TrimEnd(TrimStart(s))
    ensures r != [] ==> !IsJsSpace(r[0]) && !IsJsSpace(r[|r| - 1])
    ensures r == [] <==> AllSpace(s)
    ensures (s == [] || (!IsJsSpace(s[0]) && !IsJsSpace(s[|s| - 1]))) ==> r == s
    ensures Contains(s, r)
  {
    TrimClean(s);
    TrimBlank(s);
    TrimNoop(s);
    TrimInside(s);
  }

  lemma TrimClean(s: string)
    ensures var r := TrimEnd(TrimStart(s)); r != [] ==> !IsJsSpace(r[0]) && !IsJsSpace(r[|r| - 1])
  {
    var t := TrimStart(s);
    var r := TrimEnd(t);
    if r != [] {
      assert r[0] == t[0];
    }
  }

  lemma TrimBlank(s: string)
    ensures TrimEnd(TrimStart(s)) == [] <==> AllSpace(s)
  {
    var t := TrimStart(s);
    if t != [] {
      assert !IsJsSpace(t[0]);
      assert t[0] == s[|s| - |t|];
    }
  }

  lemma TrimNoop(s: string)
    ensures (s == [] || (!IsJsSpace(s[0]) && !IsJsSpace(s[|s| - 1]))) ==> TrimEnd(TrimStart(s)) == s
  {
    if s != [] && !IsJsSpace(s[0]) {
      assert TrimStart(s) == s;
    }
  }

  lemma TrimInside(s: string)
    ensures Contains(s, TrimEnd(TrimStart(s)))
  {
    var t := TrimStart(s);
    var r := TrimEnd(t);
    assert OccursAt(s, r, |s| - |t|);
  }

  /**
   * `trim` removes only whitespace, and only at the two ends: the result sits
   * in `s` between an all-whitespace prefix and an all-whitespace suffix.
   */
  lemma TrimStripsOnlySpace(s: string)
    ensures exists i :: OccursAt(s, Trim(s), i) && AllSpace(s[..i]) && AllSpace(s[i + |Trim(s)|..])
  {
    var t := TrimStart(s);
    var r := TrimEnd(t);
    var i := |s| - |t|;
    assert OccursAt(s, r, i) && AllSpace(s[..i]) by {
      BlankPrefix(s, i);
    }
    assert AllSpace(s[i + |r|..]) by {
      BlankSuffix(t, |r|);
      assert s[i + |r|..] == t[|r|..];
    }
  }

  lemma BlankPrefix(s: string, n: nat)
    requires n <= |s| && forall i :: 0 <= i < n ==> IsJsSpace(s[i])
    ensures AllSpace(s[..n])
  {
  }

  lemma BlankSuffix(t: string, n: nat)
    requires n <= |t| && forall i :: n <= i < |t| ==> IsJsSpace(t[i])
    ensures AllSpace(t[n..])
  {
    forall k | 0 <= k < |t| - n
      ensures IsJsSpace(t[n..][k])
    {
      assert t[n..][k] == t[n + k];
    }
  }

  predicate StartsWith(s: string, p: string)
  {
    |p| <= |s| && s[..|p|] == p
  }

  /** `p` occurs in `s` starting at position `i`. */
  predicate OccursAt(s: string, p: string, i: int)
  {
    0 <= i && i + |p| <= |s| && s[i..i + |p|] == p
  }

  lemma OccursShift(s: string, p: string)
    requires s != []
    ensures forall i :: 0 <= i ==> (OccursAt(s[1..], p, i) <==> OccursAt(s, p, i + 1))
  {
    forall i | 0 <= i
      ensures OccursAt(s[1..], p, i) <==> OccursAt(s, p, i + 1)
    {
      if 0 <= i && i + 1 + |p| <= |s| {
        assert s[1..][i..i + |p|] == s[i + 1..i + 1 + |p|];
      }
    }
  }

  /** `s.includes(p)`: some position of `s` begins an occurrence of `p`. */
  function Contains(s: string, p: string): (b: bool)
    ensures b <==> exists i :: OccursAt(s, p, i)
    decreases |s|
  {
    if StartsWith(s, p) then
      assert OccursAt(s, p, 0);
      true
    else if s == [] then false
    else
      OccursShift(s, p);
      assert forall i :: OccursAt(s, p, i) ==> i == 0 || OccursAt(s[1..], p, i - 1);
      Contains(s[1..], p)
  }

  /** `s.indexOf(p)` for a non-empty `p`: the first occurrence, or None for -1. */
  function IndexOf(s: string, p: string): (r: Option<nat>)
    requires p != []
    ensures r.None? <==> !Contains(s, p)
    ensures r.Some? ==> OccursAt(s, p, r.value)
    ensures r.Some? ==> forall j :: 0 <= j < r.value ==> !OccursAt(s, p, j)
    decreases |s|
  {
    if StartsWith(s, p) then
      assert OccursAt(s, p, 0);
      Some(0)
    else if s == [] then None
    else
      var rest := IndexOf(s[1..], p);
      IndexOfShift(s, p, rest);
      match rest
      case None => None
      case Some(i) => Some(i + 1)
  }

  /** What the search in `s[1..]` says about `s` when `s` does not start with `p`. */
  lemma IndexOfShift(s: string, p: string, rest: Option<nat>)
    requires s != [] && p != [] && !StartsWith(s, p)
    requires rest.None? ==> !Contains(s[1..], p)
    requires rest.Some? ==> OccursAt(s[1..], p, rest.value) && forall j :: 0 <= j < rest.value ==> !OccursAt(s[1..], p, j)
    ensures rest.None? ==> !Contains(s, p)
    ensures rest.Some? ==> OccursAt(s, p, rest.value + 1) && forall j :: 0 <= j < rest.value + 1 ==> !OccursAt(s, p, j)
  {
    OccursShift(s, p);
    assert !OccursAt(s, p, 0) by {
      if |p| <= |s| {
        assert s[0..|p|] == s[..|p|];
      }
    }
    forall i | 1 <= i
      ensures OccursAt(s, p, i) <==> OccursAt(s[1..], p, i - 1)
    {
    }
  }

  /** `parts.join(sep)`. */
  function Join(parts: seq<string>, sep: string): string
  {
    if |parts| == 0 then ""
    else if |parts| == 1 then parts[0]
    else parts[0] + sep + Join(parts[1..], sep)
  }

  /** With a non-empty separator, a join is empty only for no parts or a single empty part. */
  lemma {:induction false} JoinEmpty(parts: seq<string>, sep: string)
    requires sep != []
    ensures Join(parts, sep) == [] <==> parts == [] || parts == [[]]
  {
    if |parts| >= 2 {
      assert |Join(parts, sep)| >= |sep|;
    }
  }

  /**
   * `s.split(sep)` for a non-empty literal separator: cutting at each
   * leftmost occurrence, so that joining the pieces back gives `s` and no
   * piece contains the separator.
   */
  function Split(s: string, sep: string): (parts: seq<string>)
    requires sep != []
    ensures |parts| >= 1
    ensures Join(parts, sep) == s
    ensures forall k :: 0 <= k < |parts| ==> !Contains(parts[k], sep)
    ensures !Contains(s, sep) <==> parts == [s]
    ensures forall k :: 0 <= k < |parts| - 1 ==> LeftmostCut(parts[k], sep)
    decreases |s|
  {
    match IndexOf(s, sep)
    case None => [s]
    case Some(i) =>
      var rest := Split(s[i + |sep|..], sep);
      SplitStep(s, sep, i);
      JoinCons(s[..i], rest, sep);
      [s[..i]] + rest
  }

  /**
   * A piece followed by the separator whose first occurrence is that
   * separator: the cut after `piece` is the leftmost one available.
   */
  predicate LeftmostCut(piece: string, sep: string)
  {
    forall j :: 0 <= j < |piece| ==> !OccursAt(piece + sep, sep, j)
  }

  /** With a one-character separator, the first piece is the text before its first occurrence. */
  lemma SplitFirstPiece(p: string, sep: string, q: string)
    requires |sep| == 1 && !Contains(p, sep)
    ensures Split(p + sep + q, sep)[0] == p
  {
    var s := p + sep + q;
    assert s[|p|..|p| + 1] == sep;
    assert OccursAt(s, sep, |p|);
    forall j | 0 <= j < |p|
      ensures !OccursAt(s, sep, j)
    {
      assert !OccursAt(p, sep, j);
      assert s[j..j + 1] == p[j..j + 1];
    }
    assert IndexOf(s, sep) == Some(|p|);
    assert s[..|p|] == p;
  }

  /**
   * When no occurrence of `sep` straddles the end of `p`, the split of
   * `p + sep + q` cuts right after `p`, so for a `q` free of the separator
   * the last piece is `q`.
   */
  lemma {:induction false} SplitLastPiece(p: string, sep: string, q: string)
    requires sep != [] && !Contains(q, sep)
    requires NoStraddle(p + sep + q, sep, |p|)
    ensures Last(Split(p + sep + q, sep)) == q
  {
    var s := p + sep + q;
    assert s[|p|..|p| + |sep|] == sep;
    assert s[|p| + |sep|..] == q;
    SplitLastAt(s, sep, |p|);
  }

  /** No occurrence of `sep` in `s` starts before `k` and runs past it. */
  predicate NoStraddle(s: string, sep: string, k: int)
  {
    forall j :: k - |sep| < j < k ==> !OccursAt(s, sep, j)
  }

  /**
   * The general form: if `sep` occurs at `k`, no occurrence straddles `k`
   * and the text after that occurrence is free of `sep`, the last piece is
   * that text.
   */
  lemma {:induction false} SplitLastAt(s: string, sep: string, k: nat)
    requires sep != [] && OccursAt(s, sep, k) && NoStraddle(s, sep, k)
    requires !Contains(s[k + |sep|..], sep)
    ensures Last(Split(s, sep)) == s[k + |sep|..]
    decreases |s|, 2
  {
    var i := FirstCut(s, sep, k);
    SplitLastFrom(s, sep, k, i);
  }

  /** Case split on where the first cut falls. */
  lemma {:induction false} SplitLastFrom(s: string, sep: string, k: nat, i: nat)
    requires sep != [] && OccursAt(s, sep, k) && NoStraddle(s, sep, k)
    requires !Contains(s[k + |sep|..], sep)
    requires IndexOf(s, sep) == Some(i) && (i == k || i + |sep| <= k)
    ensures Last(Split(s, sep)) == s[k + |sep|..]
    decreases |s|, 1
  {
    if i == k {
      SplitLastHere(s, sep, k);
    } else {
      SplitLastLater(s, sep, k, i);
    }
  }

  /** The first cut is the last one: the piece after it is the last piece. */
  lemma SplitLastHere(s: string, sep: string, k: nat)
    requires sep != [] && IndexOf(s, sep) == Some(k)
    requires !Contains(s[k + |sep|..], sep)
    ensures Last(Split(s, sep)) == s[k + |sep|..]
  {
    SplitLastOfTail(s, sep, k);
    SplitWhole(s[k + |sep|..], sep);
  }

  /** The first cut ends before `k`: the rest of the text is split the same way from there. */
  lemma {:induction false} SplitLastLater(s: string, sep: string, k: nat, i: nat)
    requires sep != [] && IndexOf(s, sep) == Some(i) && i + |sep| <= k
    requires OccursAt(s, sep, k) && NoStraddle(s, sep, k)
    requires !Contains(s[k + |sep|..], sep)
    ensures Last(Split(s, sep)) == s[k + |sep|..]
    decreases |s|, 0
  {
    SplitLastOfTail(s, sep, i);
    SplitLastShifted(s, sep, k, i + |sep|);
  }

  /** The text after position `m` (past the first cut) has the same last piece. */
  lemma {:induction false} SplitLastShifted(s: string, sep: string, k: nat, m: nat)
    requires sep != [] && 0 < m <= k
    requires OccursAt(s, sep, k) && NoStraddle(s, sep, k)
    requires !Contains(s[k + |sep|..], sep)
    ensures Last(Split(s[m..], sep)) == s[k + |sep|..]
    decreases |s| - m, 3
  {
    CutShift(s, sep, m, k);
    SplitLastAt(s[m..], sep, k - m);
  }

  /** The last piece of `s` is the last piece of the text after its first cut. */
  lemma SplitLastOfTail(s: string, sep: string, i: nat)
    requires sep != [] && IndexOf(s, sep) == Some(i)
    ensures Last(Split(s, sep)) == Last(Split(s[i + |sep|..], sep))
  {
    SplitUnfold(s, sep, i);
    LastOfPrepend(s[..i], Split(s[i + |sep|..], sep));
  }

  /** The last element of a non-empty sequence, like `pop()` reads it. */
  function Last<T>(xs: seq<T>): T
    requires xs != []
  {
    xs[|xs| - 1]
  }

  /** The first cut comes at `k` or ends before it. */
  lemma FirstCut(s: string, sep: string, k: nat) returns (i: nat)
    requires sep != [] && OccursAt(s, sep, k) && NoStraddle(s, sep, k)
    ensures IndexOf(s, sep) == Some(i)
    ensures i == k || i + |sep| <= k
  {
    i := IndexOf(s, sep).value;
  }

  lemma SplitWhole(t: string, sep: string)
    requires sep != [] && !Contains(t, sep)
    ensures Split(t, sep) == [t]
  {
  }

  /** Moving the cut position into the text after an earlier cut at `m`. */
  lemma CutShift(s: string, sep: string, m: nat, k: nat)
    requires m <= k && k + |sep| <= |s| && OccursAt(s, sep, k) && NoStraddle(s, sep, k)
    ensures OccursAt(s[m..], sep, k - m) && NoStraddle(s[m..], sep, k - m)
    ensures s[m..][k - m + |sep|..] == s[k + |sep|..]
  {
    ShiftOccurs(s, sep, m, k - m);
    forall j | k - m - |sep| < j < k - m
      ensures !OccursAt(s[m..], sep, j)
    {
      if 0 <= j {
        ShiftOccurs(s, sep, m, j);
      }
    }
  }

  /** One step of `split`: the text before the first cut, then the split of the text after it. */
  lemma SplitUnfold(s: string, sep: string, i: nat)
    requires sep != [] && IndexOf(s, sep) == Some(i)
    ensures Split(s, sep) == [s[..i]] + Split(s[i + |sep|..], sep)
  {
  }

  lemma LastOfPrepend<T>(x: T, rest: seq<T>)
    requires rest != []
    ensures Last([x] + rest) == Last(rest)
  {
  }

  /** An occurrence in a suffix is an occurrence in the whole text, shifted. */
  lemma ShiftOccurs(s: string, sep: string, k: nat, j: nat)
    requires k <= |s|
    ensures OccursAt(s[k..], sep, j) <==> OccursAt(s, sep, j + k)
  {
    if 0 <= j && j + |sep| <= |s| - k {
      assert s[k..][j..j + |sep|] == s[j + k..j + k + |sep|];
    }
  }

  lemma SplitStep(s: string, sep: string, i: nat)
    requires sep != []
    requires OccursAt(s, sep, i)
    requires forall j :: 0 <= j < i ==> !OccursAt(s, sep, j)
    ensures s == s[..i] + sep + s[i + |sep|..]
    ensures !Contains(s[..i], sep)
    ensures LeftmostCut(s[..i], sep)
  {
    CutAround(s, i, i + |sep|);
    PrefixAvoids(s, sep, i);
    FirstCutLeftmost(s, sep, i);
  }

  lemma FirstCutLeftmost(s: string, sep: string, i: nat)
    requires OccursAt(s, sep, i)
    requires forall j :: 0 <= j < i ==> !OccursAt(s, sep, j)
    ensures LeftmostCut(s[..i], sep)
  {
    var c := s[..i] + sep;
    assert c == s[..i + |sep|];
    forall j | 0 <= j < i
      ensures !OccursAt(c, sep, j)
    {
      assert !OccursAt(s, sep, j);
      if j + |sep| <= |c| {
        assert c[j..j + |sep|] == s[j..j + |sep|];
      }
    }
  }

  lemma CutAround(s: string, i: nat, j: nat)
    requires i <= j <= |s|
    ensures s == s[..i] + s[i..j] + s[j..]
  {
  }

  /** A prefix ending before the first occurrence holds no occurrence. */
  lemma PrefixAvoids(s: string, sep: string, i: nat)
    requires sep != [] && i <= |s|
    requires forall j :: 0 <= j < i ==> !OccursAt(s, sep, j)
    ensures !Contains(s[..i], sep)
  {
    forall j | 0 <= j && j + |sep| <= i
      ensures !OccursAt(s[..i], sep, j)
    {
      assert !OccursAt(s, sep, j);
      assert s[..i][j..j + |sep|] == s[j..j + |sep|];
    }
  }

  lemma JoinCons(head: string, rest: seq<string>, sep: string)
    requires |rest| >= 1
    ensures Join([head] + rest, sep) == head + sep + Join(rest, sep)
  {
    assert ([head] + rest)[1..] == rest;
  }

  /** `s.split(/[...]/)[0]` for a character-class separator: the longest prefix free of separator characters. */
  function PrefixBefore(s: string, isSep: char -> bool): (r: string)
    ensures |r| <= |s| && r == s[..|r|]
    ensures forall i :: 0 <= i < |r| ==> !isSep(r[i])
    ensures |r| < |s| ==> isSep(s[|r|])
  {
    if s == [] || isSep(s[0]) then [] else [s[0]] + PrefixBefore(s[1..], isSep)
  }

  /** The text before the first separator of `p + rest` is `p` when `p` has none and `rest` is empty or starts with one. */
  lemma {:induction false} PrefixBeforeFirst(p: string, rest: string, isSep: char -> bool)
    requires forall i :: 0 <= i < |p| ==> !isSep(p[i])
    requires rest == [] || isSep(rest[0])
    ensures PrefixBefore(p + rest, isSep) == p
  {
    if p == [] {
      assert p + rest == rest;
    } else {
      assert (p + rest)[1..] == p[1..] + rest;
      PrefixBeforeFirst(p[1..], rest, isSep);
    }
  }

  /** Containment is transitive. */
  lemma ContainsTrans(s: string, p: string, q: string)
    requires Contains(s, p) && Contains(p, q)
    ensures Contains(s, q)
  {
    var k :| OccursAt(s, p, k);
    var m :| OccursAt(p, q, m);
    forall j | 0 <= j < |q|
      ensures s[k + m + j] == q[j]
    {
      assert s[k..k + |p|][m + j] == p[m + j];
      assert p[m..m + |q|][j] == q[j];
    }
    assert s[k + m..k + m + |q|] == q;
    assert OccursAt(s, q, k + m);
  }

  /** A piece of `s` cannot contain what `s` does not. */
  lemma NotContainedInPiece(s: string, p: string, q: string)
    requires Contains(s, p) && !Contains(s, q)
    ensures !Contains(p, q)
  {
    if Contains(p, q) {
      ContainsTrans(s, p, q);
    }
  }

  /** Whatever occurs in a prefix of `s` occurs in `s`. */
  lemma ContainsInPrefix(s: string, pre: string, p: string)
    requires |pre| <= |s| && pre == s[..|pre|] && Contains(pre, p)
    ensures Contains(s, p)
  {
    var k :| OccursAt(pre, p, k);
    assert s[k..k + |p|] == pre[k..k + |p|];
    assert OccursAt(s, p, k);
  }

  /** A piece of `s` has only characters that `s` has: if `s` avoids a class, so does the piece. */
  lemma ContainsAvoids(s: string, p: string, avoid: char -> bool)
    requires Contains(s, p) && forall i :: 0 <= i < |s| ==> !avoid(s[i])
    ensures forall i :: 0 <= i < |p| ==> !avoid(p[i])
  {
    var k :| OccursAt(s, p, k);
    forall i | 0 <= i < |p|
      ensures !avoid(p[i])
    {
      assert p[i] == s[k + i];
    }
  }

  /** JavaScript truthiness of an optional string: present and non-empty. */
  predicate Truthy(o: Option<string>)
  {
    o.Some? && o.value != ""
  }

  /** `o || d` for an optional string. */
  function StrOr(o: Option<string>, d: string): string
  {
    if Truthy(o) then o.value else d
  }

  /** `xs?.[0]` for an optional array: absent when the array is absent or empty. */
  function FirstOf(xs: Option<seq<string>>): Option<string>
  {
    if xs.Some? && |xs.value| > 0 then Some(xs.value[0]) else None
  }
}
