/**
 * The string operations the scrapers apply to page text: JavaScript's
 * `trim`, `toLowerCase`, `includes`, `indexOf`, `split` and `join` with a
 * string separator, `replace` with a string pattern, and the `clean` helper
 * every controller defines, which turns each whitespace run into one space
 * and trims. Whitespace and letter case are ASCII only.
 */
module Text {
  import opened Wrappers

  /** The characters `\s` matches and `trim` removes (ASCII part). */
  predicate IsWs(c: char) {
    c == ' ' || c == '\t' || c == '\n' || c == '\r' || c == '\U{000B}' || c == '\U{000C}'
  }

  /** The characters a regular-expression `.` does not match. */
  predicate IsLineTerminator(c: char) {
    c == '\n' || c == '\r' || c == '\U{2028}' || c == '\U{2029}'
  }

  predicate IsDigit(c: char) {
    '0' <= c <= '9'
  }

  // ---------------------------------------------------------------- trim

  function TrimStart(s: string): (r: string)
    ensures |r| <= |s| && r == s[|s| - |r|..]
    ensures forall i :: 0 <= i < |s| - |r| ==> IsWs(s[i])
    ensures r == [] || !IsWs(r[0])
    decreases |s|
  {
    if s != [] && IsWs(s[0]) then TrimStart(s[1..]) else s
  }

  function TrimEnd(s: string): (r: string)
    ensures |r| <= |s| && r == s[..|r|]
    ensures forall i :: |r| <= i < |s| ==> IsWs(s[i])
    ensures r == [] || !IsWs(r[|r| - 1])
    decreases |s|
  {
    if s != [] && IsWs(s[|s| - 1]) then TrimEnd(s[..|s| - 1]) else s
  }

  /** No whitespace at either end. */
  predicate IsTrimmed(s: string) {
    s == [] || (!IsWs(s[0]) && !IsWs(s[|s| - 1]))
  }

  /** Where the trimmed text starts inside the original. */
  function TrimOffset(s: string): nat {
    |s| - |TrimStart(s)|
  }

  /** `String.prototype.trim`: the infix of `s` left after dropping the whitespace at both ends. */
  function Trim(s: string): (r: string)
    ensures IsTrimmed(r)
    ensures TrimOffset(s) + |r| <= |s| && r == s[TrimOffset(s)..TrimOffset(s) + |r|]
    ensures forall i :: 0 <= i < TrimOffset(s) ==> IsWs(s[i])
    ensures forall i :: TrimOffset(s) + |r| <= i < |s| ==> IsWs(s[i])
  {
    TrimEnd(TrimStart(s))
  }

  lemma TrimKeepsTrimmed(s: string)
    requires IsTrimmed(s)
    ensures Trim(s) == s
  {
  }

  // ---------------------------------------------------------------- case

  function LowerChar(c: char): char {
    if 'A' <= c <= 'Z' then (c as int + 32) as char else c
  }

  /** `toLowerCase`, ASCII letters only. */
  function Lower(s: string): (r: string)
    ensures |r| == |s|
    ensures forall i :: 0 <= i < |r| ==> !('A' <= r[i] <= 'Z')
    ensures forall i :: 0 <= i < |s| && !('A' <= s[i] <= 'Z') ==> r[i] == s[i]
    ensures forall i :: 0 <= i < |s| && 'A' <= s[i] <= 'Z' ==> r[i] == (s[i] as int + 32) as char
  {
    seq(|s|, i requires 0 <= i < |s| => LowerChar(s[i]))
  }

  /** Lower-casing twice is lower-casing once. */
  lemma LowerIdempotent(s: string)
    ensures Lower(Lower(s)) == Lower(s)
  {
    var once := Lower(s);
    assert forall i :: 0 <= i < |once| ==> Lower(once)[i] == once[i];
  }

  // ---------------------------------------------------------------- search

  predicate StartsWith(s: string, p: string) {
    |p| <= |s| && s[..|p|] == p
  }

  /** `s.indexOf(p)`: the first position where `p` occurs in `s`. */
  function IndexOf(s: string, p: string): (r: Option<nat>)
    ensures r.Some? ==> r.value + |p| <= |s| && StartsWith(s[r.value..], p)
    ensures r.Some? ==> forall j :: 0 <= j < r.value ==> !StartsWith(s[j..], p)
    ensures r.None? ==> forall j :: 0 <= j <= |s| ==> !StartsWith(s[j..], p)
    decreases |s|
  {
    if StartsWith(s, p) then Some(0)
    else if s == [] then None
    else
      SuffixesOfTail(s);
      match IndexOf(s[1..], p)
      case None => None
      case Some(i) => Some(i + 1)
  }

  /** The suffixes of `s[1..]` are those of `s`, one position on. */
  lemma SuffixesOfTail(s: string)
    requires s != []
    ensures forall j :: 1 <= j <= |s| ==> s[j..] == s[1..][j - 1..]
  {
  }

  /** `s.includes(p)`. */
  predicate Contains(s: string, p: string)
    ensures Contains(s, p) <==> exists j :: 0 <= j <= |s| && StartsWith(s[j..], p)
  {
    IndexOf(s, p).Some?
  }

  /** An occurrence of `p` at any position makes `s` contain it. */
  lemma ContainsAt(s: string, j: nat, p: string)
    requires j <= |s| && StartsWith(s[j..], p)
    ensures Contains(s, p)
  {
  }

  /** An occurrence of `p` lying inside a prefix of `s` is an occurrence in `s`. */
  lemma ContainsPrefix(s: string, n: nat, p: string)
    requires n <= |s| && Contains(s[..n], p)
    ensures Contains(s, p)
  {
    var j := IndexOf(s[..n], p).value;
    assert s[..n][j..][..|p|] == s[j..][..|p|];
  }

  /** A text without `p` stays without it when its first character is dropped. */
  lemma NotContainsTail(s: string, p: string)
    requires s != [] && !Contains(s, p)
    ensures !Contains(s[1..], p)
  {
    forall j | 0 <= j <= |s[1..]| ensures !StartsWith(s[1..][j..], p) {
      assert s[1..][j..] == s[j + 1..];
    }
  }

  /** No occurrence of `p` starts before position `n`, so the prefix of length `n` does not contain it. */
  lemma NoOccurrenceBefore(s: string, n: nat, p: string)
    requires p != [] && n <= |s|
    requires forall j :: 0 <= j < n ==> !StartsWith(s[j..], p)
    ensures !Contains(s[..n], p)
  {
    forall j | 0 <= j <= n ensures StartsWith(s[..n][j..], p) ==> StartsWith(s[j..], p) {
      if j + |p| <= n {
        assert s[..n][j..][..|p|] == s[j..][..|p|];
      }
    }
  }

  /** `p` first occurs in `s` exactly where it occurs after a prefix `a` that does not contain it. */
  lemma IndexOfAfter(a: string, p: string, b: string)
    requires |p| == 1 && p[0] !in a
    ensures IndexOf(a + p + b, p) == Some(|a|)
    ensures IndexOf(a, p) == None
    decreases |a|
  {
    if a != [] {
      assert (a + p + b)[1..] == a[1..] + p + b;
      IndexOfAfter(a[1..], p, b);
    }
  }

  // ---------------------------------------------------------------- split and join

  /** `s.split(sep)` for a non-empty string separator. */
  function Split(s: string, sep: string): (r: seq<string>)
    requires sep != []
    ensures |r| >= 1
    ensures !Contains(s, sep) ==> r == [s]
    ensures forall k :: 0 <= k < |r| ==> !Contains(r[k], sep)
    decreases |s|
  {
    match IndexOf(s, sep)
    case None => [s]
    case Some(i) =>
      NoOccurrenceBefore(s, i, sep);
      [s[..i]] + Split(s[i + |sep|..], sep)
  }

  /** No proper prefix of `p` is also a suffix of it, so two occurrences of `p` never overlap. */
  predicate Borderless(p: string) {
    forall m :: 0 < m < |p| ==> p[..m] != p[|p| - m..]
  }

  /** A pattern whose first character occurs nowhere else in it cannot overlap itself. */
  lemma FirstCharOnce(p: string)
    requires p != [] && forall j :: 0 < j < |p| ==> p[j] != p[0]
    ensures Borderless(p)
  {
    forall m | 0 < m < |p| ensures p[..m] != p[|p| - m..] {
      assert p[..m][0] == p[0] && p[|p| - m..][0] == p[|p| - m];
    }
  }

  /** A character that does not occur in `s` is not contained in it as a one-character pattern. */
  lemma CharAbsent(s: string, c: char)
    requires c !in s
    ensures !Contains(s, [c])
  {
    forall i | 0 <= i <= |s| ensures !StartsWith(s[i..], [c]) {
      if i < |s| {
        assert s[i..][..1][0] == s[i];
      }
    }
  }

  /** A text missing any one character of a pattern does not contain the pattern. */
  lemma PatternCharAbsent(s: string, p: string, k: nat)
    requires k < |p| && p[k] !in s
    ensures !Contains(s, p)
  {
    forall i | 0 <= i <= |s| ensures !StartsWith(s[i..], p) {
      if i + |p| <= |s| {
        assert s[i..][..|p|][k] == s[i + k];
      }
    }
  }

  /**
   * After a prefix `a` that does not contain a pattern that cannot overlap
   * itself, the first occurrence of the pattern is the one that follows `a`.
   */
  lemma FirstAfter(a: string, p: string, b: string)
    requires p != [] && Borderless(p) && !Contains(a, p)
    ensures IndexOf(a + p + b, p) == Some(|a|)
  {
    var s := a + p + b;
    assert s[|a|..][..|p|] == p;
    NoneBefore(a, p, b);
    IndexOfFirst(s, p, |a|);
  }

  /** `IndexOf` finds the first occurrence. */
  lemma IndexOfFirst(s: string, p: string, i: nat)
    requires FirstAt(s, p, i)
    ensures IndexOf(s, p) == Some(i)
  {
  }

  /** No occurrence of `p` in `a + p + b` starts before the one after `a`. */
  lemma NoneBefore(a: string, p: string, b: string)
    requires Borderless(p) && !Contains(a, p)
    ensures forall j :: 0 <= j < |a| ==> !StartsWith((a + p + b)[j..], p)
  {
    forall j | 0 <= j < |a| ensures !StartsWith((a + p + b)[j..], p) {
      if j + |p| <= |a| {
        InsidePrefix(a, p, b, j);
      } else {
        NoStraddle(a, p, b, j);
      }
    }
  }

  /** An occurrence lying inside `a` would be one of `a`. */
  lemma InsidePrefix(a: string, p: string, b: string, j: nat)
    requires !Contains(a, p) && j + |p| <= |a|
    ensures !StartsWith((a + p + b)[j..], p)
  {
    assert a[j..][..|p|] == (a + p + b)[j..][..|p|];
  }

  /** An occurrence of a pattern that cannot overlap itself never starts inside `a` and ends inside the next copy. */
  lemma NoStraddle(a: string, p: string, b: string, j: nat)
    requires Borderless(p) && j < |a| < j + |p|
    ensures !StartsWith((a + p + b)[j..], p)
  {
    var s := a + p + b;
    var m := |a| - j;
    var k := |p| - m;
    assert p[..k] != p[|p| - k..];
    var t :| 0 <= t < k && p[..k][t] != p[|p| - k..][t];
    assert s[j..][m + t] == p[t];
    assert s[j..][..|p|][m + t] != p[m + t];
  }

  /** Splitting at an occurrence that is the first: the text before it, then the split of what follows. */
  lemma SplitAround(a: string, sep: string, b: string)
    requires sep != [] && Borderless(sep) && !Contains(a, sep)
    ensures Split(a + sep + b, sep) == [a] + Split(b, sep)
  {
    var s := a + sep + b;
    FirstAfter(a, sep, b);
    assert s[..|a|] == a;
    assert s[|a| + |sep|..] == b;
  }

  /** For a separator that cannot overlap itself, the split of `a + sep + b` is the split of `a`, then of `b`. */
  lemma {:induction false} SplitConcat(a: string, sep: string, b: string)
    requires sep != [] && Borderless(sep)
    ensures Split(a + sep + b, sep) == Split(a, sep) + Split(b, sep)
    decreases |a|
  {
    if !Contains(a, sep) {
      SplitAround(a, sep, b);
    } else {
      var head, tail := FirstPiece(a, sep);
      SplitConcat(tail, sep, b);
      SplitAround(head, sep, tail);
      Regroup(head, sep, tail, b);
      SplitAround(head, sep, tail + sep + b);
      AppendAssoc([head], Split(tail, sep), Split(b, sep));
    }
  }

  /** A text that contains the separator is the text before its first occurrence, the separator, and the rest. */
  lemma FirstPiece(a: string, sep: string) returns (head: string, tail: string)
    requires sep != [] && Contains(a, sep)
    ensures a == head + sep + tail && !Contains(head, sep) && |tail| < |a|
  {
    var i := IndexOf(a, sep).value;
    head, tail := a[..i], a[i + |sep|..];
    NoOccurrenceBefore(a, i, sep);
    SplitAtOccurrence(a, i, sep);
  }

  lemma Regroup(head: string, sep: string, tail: string, b: string)
    ensures (head + sep + tail) + sep + b == head + sep + (tail + sep + b)
  {
  }

  lemma HeadTail<T>(s: seq<T>)
    requires s != []
    ensures s == [s[0]] + s[1..]
  {
  }

  lemma AppendAssoc<T>(x: seq<T>, y: seq<T>, z: seq<T>)
    ensures x + (y + z) == (x + y) + z
  {
  }

  /** `parts.join(sep)`. */
  function Join(parts: seq<string>, sep: string): string {
    if parts == [] then []
    else if |parts| == 1 then parts[0]
    else parts[0] + sep + Join(parts[1..], sep)
  }

  lemma JoinCons(x: string, tail: seq<string>, sep: string)
    requires tail != []
    ensures Join([x] + tail, sep) == x + sep + Join(tail, sep)
  {
    assert ([x] + tail)[1..] == tail;
  }

  /** Joining two non-empty lists puts one separator between the two joins. */
  lemma {:induction false} JoinAppend(x: seq<string>, y: seq<string>, sep: string)
    requires x != [] && y != []
    ensures Join(x + y, sep) == Join(x, sep) + sep + Join(y, sep)
    decreases |x|
  {
    if |x| == 1 {
      assert x + y == [x[0]] + y;
      JoinCons(x[0], y, sep);
    } else {
      var tail := x[1..];
      assert x + y == [x[0]] + (tail + y);
      JoinCons(x[0], tail + y, sep);
      JoinAppend(tail, y, sep);
      assert x == [x[0]] + tail;
      JoinCons(x[0], tail, sep);
    }
  }

  lemma SplitAtOccurrence(s: string, i: nat, p: string)
    requires i <= |s| && StartsWith(s[i..], p)
    ensures s == s[..i] + p + s[i + |p|..]
  {
    assert s[i..] == s[i..][..|p|] + s[i..][|p|..];
  }

  /** Joining the pieces of a split with the same separator gives the text back. */
  lemma {:induction false} SplitThenJoin(s: string, sep: string)
    requires sep != []
    ensures Join(Split(s, sep), sep) == s
    decreases |s|
  {
    var o := IndexOf(s, sep);
    if o.Some? {
      var i := o.value;
      var rest := s[i + |sep|..];
      SplitThenJoin(rest, sep);
      var tail := Split(rest, sep);
      assert Split(s, sep) == [s[..i]] + tail;
      JoinCons(s[..i], tail, sep);
      SplitAtOccurrence(s, i, sep);
    }
  }

  /** Splitting text joined with a one-character separator that no part contains gives the parts back. */
  lemma {:induction false} JoinThenSplit(parts: seq<string>, sep: string)
    requires |sep| == 1 && |parts| >= 1
    requires forall k :: 0 <= k < |parts| ==> sep[0] !in parts[k]
    ensures Split(Join(parts, sep), sep) == parts
    decreases |parts|
  {
    var first := parts[0];
    if |parts| == 1 {
      IndexOfAfter(first, sep, []);
      assert Join(parts, sep) == first;
    } else {
      var tail := parts[1..];
      var rest := Join(tail, sep);
      var s := first + sep + rest;
      assert Join(parts, sep) == s;
      IndexOfAfter(first, sep, rest);
      assert s[..|first|] == first;
      assert s[|first| + |sep|..] == rest;
      JoinThenSplit(tail, sep);
      assert Split(s, sep) == [first] + Split(rest, sep);
      assert parts == [first] + tail;
    }
  }

  /** A character that does not occur in the text occurs in no piece of its split. */
  lemma {:induction false} SplitAvoids(s: string, sep: string, x: char)
    requires sep != [] && x !in s
    ensures forall k :: 0 <= k < |Split(s, sep)| ==> x !in Split(s, sep)[k]
    decreases |s|
  {
    var o := IndexOf(s, sep);
    if o.Some? {
      var i := o.value;
      var head, rest := s[..i], s[i + |sep|..];
      SplitCons(s, sep);
      assert x !in head && x !in rest;
      SplitAvoids(rest, sep, x);
    }
  }

  /** The first piece of a split ends where the separator first occurs. */
  lemma SplitCons(s: string, sep: string)
    requires sep != [] && IndexOf(s, sep).Some?
    ensures Split(s, sep) == [s[..IndexOf(s, sep).value]] + Split(s[IndexOf(s, sep).value + |sep|..], sep)
  {
  }

  /** `p` occurs in `s` at `i`, and nowhere before. */
  predicate FirstAt(s: string, p: string, i: nat) {
    i + |p| <= |s| && StartsWith(s[i..], p) && forall j :: 0 <= j < i ==> !StartsWith(s[j..], p)
  }

  /** `s.replace(p, q)` with a string pattern: only the first occurrence is replaced. */
  function ReplaceFirst(s: string, p: string, q: string): (r: string)
    ensures !Contains(s, p) ==> r == s
    ensures Contains(s, p) ==> exists i: nat :: FirstAt(s, p, i) && r == s[..i] + q + s[i + |p|..]
    ensures Contains(s, p) ==> |r| == |s| - |p| + |q|
  {
    match IndexOf(s, p)
    case None => s
    case Some(i) =>
      assert FirstAt(s, p, i);
      s[..i] + q + s[i + |p|..]
  }

  // ---------------------------------------------------------------- digits

  /** `s.replace(/[^0-9]/g, "")`: the digits of `s`, in order. */
  function Digits(s: string): (r: string)
    ensures |r| <= |s|
    ensures forall i :: 0 <= i < |r| ==> IsDigit(r[i])
    ensures (forall i :: 0 <= i < |s| ==> IsDigit(s[i])) ==> r == s
    ensures |s| == 1 ==> r == if IsDigit(s[0]) then s else []
    decreases |s|
  {
    if s == [] then []
    else (if IsDigit(s[0]) then [s[0]] else []) + Digits(s[1..])
  }

  /** The digits of a concatenation are the digits of each part, in order. */
  /** Text without a digit loses everything. */
  lemma {:induction false} DigitsNone(s: string)
    requires forall i :: 0 <= i < |s| ==> !IsDigit(s[i])
    ensures Digits(s) == []
    decreases |s|
  {
    if s != [] {
      DigitsNone(s[1..]);
    }
  }

  /** The digits of a concatenation are those of each part, in order. */
  lemma {:induction false} DigitsConcat(a: string, b: string)
    ensures Digits(a + b) == Digits(a) + Digits(b)
    decreases |a|
  {
    if a == [] {
      assert a + b == b;
    } else {
      assert (a + b)[0] == a[0];
      assert (a + b)[1..] == a[1..] + b;
      DigitsConcat(a[1..], b);
    }
  }

  // ---------------------------------------------------------------- clean

  /** Every whitespace character is a plain space. */
  predicate SpacesOnly(s: string) {
    forall i :: 0 <= i < |s| && IsWs(s[i]) ==> s[i] == ' '
  }

  /** No two whitespace characters are adjacent. */
  predicate NoDoubleWs(s: string) {
    forall i :: 0 <= i < |s| - 1 && IsWs(s[i]) ==> !IsWs(s[i + 1])
  }

  /** What `clean` produces: single interior spaces, nothing at the ends. */
  predicate IsClean(s: string) {
    SpacesOnly(s) && NoDoubleWs(s) && IsTrimmed(s)
  }

  /** The non-whitespace characters of `s`, in order. */
  function NonWs(s: string): string {
    if s == [] then [] else (if IsWs(s[0]) then [] else [s[0]]) + NonWs(s[1..])
  }

  /** `s.replace(/\s+/g, " ")`. */
  function Collapse(s: string): (r: string)
    ensures SpacesOnly(r) && NoDoubleWs(r)
    ensures s == [] <==> r == []
    ensures s != [] ==> (IsWs(r[0]) <==> IsWs(s[0]))
    decreases |s|
  {
    if s == [] then []
    else if IsWs(s[0]) then
      var rest := TrimStart(s);
      assert rest == TrimStart(s[1..]);
      var t := Collapse(rest);
      ConsSpaced(' ', t);
      [' '] + t
    else
      var t := Collapse(s[1..]);
      ConsSpaced(s[0], t);
      [s[0]] + t
  }

  /** A space in front of text that does not start with whitespace keeps it spaced; so does any other character. */
  lemma ConsSpaced(c: char, t: string)
    requires SpacesOnly(t) && NoDoubleWs(t)
    requires IsWs(c) ==> c == ' ' && (t == [] || !IsWs(t[0]))
    ensures SpacesOnly([c] + t) && NoDoubleWs([c] + t)
  {
    var r := [c] + t;
    assert forall i :: 1 <= i < |r| ==> r[i] == t[i - 1];
  }

  /** Any infix of spaced text is spaced. */
  lemma InfixSpaced(c: string, k: nat, n: nat)
    requires SpacesOnly(c) && NoDoubleWs(c) && k + n <= |c|
    ensures SpacesOnly(c[k..k + n]) && NoDoubleWs(c[k..k + n])
  {
    var r := c[k..k + n];
    assert forall i :: 0 <= i < n ==> r[i] == c[k + i];
  }

  /** `t.replace(/\s+/g, " ").trim()`: the same non-whitespace text, laid out cleanly. */
  function CleanText(s: string): (r: string)
    ensures IsClean(r)
    ensures NonWs(r) == NonWs(s)
  {
    var c := Collapse(s);
    TrimOfSpaced(c);
    NonWsOfCollapse(s);
    NonWsOfTrim(c);
    Trim(c)
  }

  /** A whitespace run followed by non-whitespace is all that `TrimStart` removes. */
  lemma {:induction false} TrimStartRun(ws: string, rest: string)
    requires forall i :: 0 <= i < |ws| ==> IsWs(ws[i])
    requires rest == [] || !IsWs(rest[0])
    ensures TrimStart(ws + rest) == rest
    decreases |ws|
  {
    if ws == [] {
      assert ws + rest == rest;
    } else {
      assert (ws + rest)[1..] == ws[1..] + rest;
      TrimStartRun(ws[1..], rest);
    }
  }

  /**
   * Each whitespace run becomes one space: spaced text ending in a non-space,
   * then a run of whitespace, then text that starts with a non-space.
   */
  lemma {:induction false} CollapseRun(w: string, ws: string, rest: string)
    requires SpacesOnly(w) && NoDoubleWs(w) && (w == [] || !IsWs(w[|w| - 1]))
    requires ws != [] && forall i :: 0 <= i < |ws| ==> IsWs(ws[i])
    requires rest == [] || !IsWs(rest[0])
    ensures Collapse(w + ws + rest) == w + " " + Collapse(rest)
    decreases |w|
  {
    if w == [] {
      assert w + ws + rest == ws + rest;
      TrimStartRun(ws, rest);
    } else {
      var c, w' := w[0], w[1..];
      SpacedTail(w);
      ConsSplit(w, ws, rest);
      CollapseRun(w', ws, rest);
      CollapseHead(c, w', ws + rest);
      ConsAssoc(c, w', " ", Collapse(rest));
    }
  }

  /** Dropping the first character of spaced text keeps it spaced; a leading space is single. */
  lemma SpacedTail(w: string)
    requires w != [] && SpacesOnly(w) && NoDoubleWs(w) && !IsWs(w[|w| - 1])
    ensures SpacesOnly(w[1..]) && NoDoubleWs(w[1..]) && (w[1..] == [] || !IsWs(w[1..][|w| - 2]))
    ensures IsWs(w[0]) ==> w[0] == ' ' && |w| >= 2 && !IsWs(w[1..][0])
  {
    InfixSpaced(w, 1, |w| - 1);
    assert w[1..1 + (|w| - 1)] == w[1..];
  }

  lemma ConsSplit(w: string, ws: string, rest: string)
    requires w != []
    ensures w == [w[0]] + w[1..]
    ensures w + ws + rest == [w[0]] + (w[1..] + (ws + rest))
    ensures w[1..] + ws + rest == w[1..] + (ws + rest)
  {
  }

  /** A character that is not whitespace, or one space before a non-space, is kept as it is. */
  lemma CollapseHead(c: char, x: string, y: string)
    requires !IsWs(c) || (c == ' ' && x != [] && !IsWs(x[0]))
    ensures Collapse([c] + (x + y)) == [c] + Collapse(x + y)
  {
    var s := [c] + (x + y);
    assert s[0] == c && s[1..] == x + y;
    if IsWs(c) {
      assert (x + y)[0] == x[0];
      assert TrimStart(x + y) == x + y;
    }
  }

  lemma ConsAssoc(c: char, x: string, y: string, z: string)
    ensures [c] + (x + y + z) == ([c] + x) + y + z
  {
  }

  /** Cleaning two clean words separated by any whitespace run joins them with one space. */
  lemma CleanWords(a: string, ws: string, b: string)
    requires IsClean(a) && a != [] && IsClean(b) && b != []
    requires ws != [] && forall i :: 0 <= i < |ws| ==> IsWs(ws[i])
    ensures CleanText(a + ws + b) == a + " " + b
  {
    CollapseRun(a, ws, b);
    CollapseKeepsSpaced(b);
    var t := a + " " + b;
    assert t[0] == a[0] && t[|t| - 1] == b[|b| - 1];
    TrimKeepsTrimmed(t);
  }

  /** Trimming spaced text makes it clean. */
  lemma TrimOfSpaced(c: string)
    requires SpacesOnly(c) && NoDoubleWs(c)
    ensures IsClean(Trim(c))
  {
    var r, k := Trim(c), TrimOffset(c);
    InfixSpaced(c, k, |r|);
  }

  lemma NonWsConcat(a: string, b: string)
    ensures NonWs(a + b) == NonWs(a) + NonWs(b)
  {
    if a == [] {
      assert a + b == b;
    } else {
      assert (a + b)[0] == a[0];
      assert (a + b)[1..] == a[1..] + b;
      NonWsConcat(a[1..], b);
    }
  }

  lemma NonWsOfTrim(s: string)
    ensures NonWs(Trim(s)) == NonWs(s)
  {
    NonWsOfTrimStart(s);
    NonWsOfTrimEnd(TrimStart(s));
  }

  lemma {:induction false} NonWsOfTrimStart(s: string)
    ensures NonWs(TrimStart(s)) == NonWs(s)
    decreases |s|
  {
    if s != [] && IsWs(s[0]) {
      NonWsOfTrimStart(s[1..]);
    }
  }

  lemma {:induction false} NonWsOfTrimEnd(s: string)
    ensures NonWs(TrimEnd(s)) == NonWs(s)
    decreases |s|
  {
    if s != [] && IsWs(s[|s| - 1]) {
      var init := s[..|s| - 1];
      NonWsOfTrimEnd(init);
      assert s == init + [s[|s| - 1]];
      NonWsConcat(init, [s[|s| - 1]]);
    }
  }

  lemma {:induction false} NonWsOfCollapse(s: string)
    ensures NonWs(Collapse(s)) == NonWs(s)
    decreases |s|
  {
    if s == [] {
    } else if IsWs(s[0]) {
      var rest := TrimStart(s);
      assert rest == TrimStart(s[1..]);
      NonWsOfCollapse(rest);
      NonWsOfTrimStart(s);
      NonWsConcat([' '], Collapse(rest));
    } else {
      NonWsOfCollapse(s[1..]);
      NonWsConcat([s[0]], Collapse(s[1..]));
    }
  }

  lemma {:induction false} CollapseKeepsSpaced(s: string)
    requires SpacesOnly(s) && NoDoubleWs(s)
    ensures Collapse(s) == s
    decreases |s|
  {
    if s == [] {
    } else if IsWs(s[0]) {
      if |s| > 1 {
        assert !IsWs(s[1]);
        assert TrimStart(s[1..]) == s[1..];
      }
      assert TrimStart(s) == s[1..];
      CollapseKeepsSpaced(s[1..]);
    } else {
      CollapseKeepsSpaced(s[1..]);
    }
  }

  /** Clean text is left as it is, so cleaning twice is cleaning once. */
  lemma {:induction false} CleanTextIdempotent(s: string)
    ensures IsClean(s) ==> CleanText(s) == s
    ensures CleanText(CleanText(s)) == CleanText(s)
  {
    forall t | IsClean(t) ensures CleanText(t) == t {
      CollapseKeepsSpaced(t);
      TrimKeepsTrimmed(t);
    }
  }

  /** `clean(t)`: `null` for missing or empty text, otherwise `CleanText`. */
  function Clean(t: Option<string>): (r: Option<string>)
    ensures r.None? <==> (t.None? || t.value == [])
    ensures r.Some? ==> IsClean(r.value) && NonWs(r.value) == NonWs(t.value)
  {
    if t.None? || t.value == [] then None else Some(CleanText(t.value))
  }

  // ---------------------------------------------------------------- truthiness

  /** JavaScript truthiness of a text read that may be missing. */
  predicate Truthy(t: Option<string>) {
    t.Some? && t.value != []
  }

  /** `a || b` on two text reads. */
  function OrElse(a: Option<string>, b: Option<string>): (r: Option<string>)
    ensures Truthy(r) <==> Truthy(a) || Truthy(b)
    ensures Truthy(a) ==> r == a
    ensures !Truthy(a) ==> r == b
  {
    if Truthy(a) then a else b
  }

  /** `x || null` on an optional text. */
  function OrNull(t: Option<string>): (r: Option<string>)
    ensures r.None? || (r.value != [] && r == t)
    ensures Truthy(t) ==> r == t
  {
    if Truthy(t) then t else None
  }

  /** `t?.trim() || null`. */
  function TrimOrNull(t: Option<string>): (r: Option<string>)
    ensures r.Some? ==> r.value != [] && IsTrimmed(r.value)
    ensures t.Some? && Trim(t.value) != [] ==> r == Some(Trim(t.value))
  {
    if t.Some? && Trim(t.value) != [] then Some(Trim(t.value)) else None
  }

  /** `parts.filter(Boolean)` on strings. */
  function DropEmpty(parts: seq<string>): (r: seq<string>)
    ensures |r| <= |parts|
    ensures forall k :: 0 <= k < |r| ==> r[k] != []
    ensures forall x :: x in r <==> x in parts && x != []
    ensures |parts| == 1 ==> r == if parts[0] == [] then [] else parts
  {
    if parts == [] then []
    else (if parts[0] == [] then [] else [parts[0]]) + DropEmpty(parts[1..])
  }

  /** Filtering trimmed pieces leaves trimmed pieces. */
  lemma DropEmptyTrimmed(parts: seq<string>)
    requires forall k :: 0 <= k < |parts| ==> IsTrimmed(parts[k])
    ensures forall k :: 0 <= k < |DropEmpty(parts)| ==> IsTrimmed(DropEmpty(parts)[k])
  {
    var r := DropEmpty(parts);
    forall k | 0 <= k < |r| ensures IsTrimmed(r[k]) {
      assert r[k] in parts;
    }
  }

  /** Filtering a concatenation filters each part, in order. */
  lemma {:induction false} DropEmptyConcat(a: seq<string>, b: seq<string>)
    ensures DropEmpty(a + b) == DropEmpty(a) + DropEmpty(b)
    decreases |a|
  {
    if a == [] {
      assert a + b == b;
    } else {
      assert (a + b)[0] == a[0];
      assert (a + b)[1..] == a[1..] + b;
      DropEmptyConcat(a[1..], b);
    }
  }

  /** `parts.map(clean).filter(Boolean)`: the non-empty cleaned pieces, in order. */
  function CleanPieces(parts: seq<string>): (r: seq<string>)
    ensures |r| <= |parts|
    ensures forall k :: 0 <= k < |r| ==> r[k] != [] && IsClean(r[k])
    ensures |parts| == 1 ==> r == if CleanText(parts[0]) == [] then [] else [CleanText(parts[0])]
    decreases |parts|
  {
    if parts == [] then []
    else
      var c := Clean(Some(parts[0]));
      (if Truthy(c) then [c.value] else []) + CleanPieces(parts[1..])
  }

  /** Cleaning and filtering a concatenation does each part, in order. */
  lemma {:induction false} CleanPiecesConcat(a: seq<string>, b: seq<string>)
    ensures CleanPieces(a + b) == CleanPieces(a) + CleanPieces(b)
    decreases |a|
  {
    if a == [] {
      assert a + b == b;
    } else {
      var x, rest := a[0], a[1..];
      assert a == [x] + rest;
      assert a + b == [x] + (rest + b);
      CleanPiecesCons(x, rest + b);
      CleanPiecesConcat(rest, b);
      CleanPiecesCons(x, rest);
      AppendAssoc(CleanPieces([x]), CleanPieces(rest), CleanPieces(b));
    }
  }

  /** The cleaned lines of two blocks joined by a newline are those of the first block, then of the second. */
  lemma CleanLinesConcat(a: string, b: string)
    ensures CleanPieces(Split(a + "\n" + b, "\n")) == CleanPieces(Split(a, "\n")) + CleanPieces(Split(b, "\n"))
  {
    FirstCharOnce("\n");
    SplitConcat(a, "\n", b);
    CleanPiecesConcat(Split(a, "\n"), Split(b, "\n"));
  }

  /** A text without a newline is one line: its cleaned text, or nothing when that is blank. */
  lemma CleanLinesLine(line: string)
    requires '\n' !in line
    ensures CleanPieces(Split(line, "\n")) == if CleanText(line) == [] then [] else [CleanText(line)]
  {
    CharAbsent(line, '\n');
    assert Split(line, "\n") == [line];
  }

  lemma CleanPiecesCons(x: string, rest: seq<string>)
    ensures CleanPieces([x] + rest) == CleanPieces([x]) + CleanPieces(rest)
  {
    assert ([x] + rest)[0] == x && ([x] + rest)[1..] == rest;
    assert [x][1..] == [];
  }

  /** A clean, non-empty piece survives `map(clean).filter(Boolean)` unchanged. */
  lemma CleanPieceKept(x: string)
    requires IsClean(x) && x != []
    ensures CleanPieces([x]) == [x]
  {
    CleanTextIdempotent(x);
  }

  /** Cleaning pieces that are already clean and non-empty keeps them all, so the step is idempotent. */
  lemma {:induction false} CleanPiecesIdempotent(parts: seq<string>)
    ensures CleanPieces(CleanPieces(parts)) == CleanPieces(parts)
    decreases |parts|
  {
    if parts != [] {
      var c := Clean(Some(parts[0]));
      CleanPiecesIdempotent(parts[1..]);
      if Truthy(c) {
        CleanTextIdempotent(c.value);
        assert Clean(Some(c.value)) == Some(c.value);
        var r := CleanPieces(parts);
        assert r == [c.value] + CleanPieces(parts[1..]);
        assert r[0] == c.value && r[1..] == CleanPieces(parts[1..]);
        assert CleanPieces(r) == [c.value] + CleanPieces(r[1..]);
      } else {
        assert CleanPieces(parts) == CleanPieces(parts[1..]);
      }
    }
  }
}
