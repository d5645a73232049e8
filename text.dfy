/** The JavaScript string operations the extension relies on (`trim`, `split`,
    `join`, `includes`, `startsWith`, `endsWith`, `lastIndexOf` and case mapping),
    written out over `seq<char>`. */
module Optional {
  datatype Option<T> = None | Some(value: T) {
    function GetOr(default: T): T {
      match this
      case Some(v) => v
      case None => default
    }
  }
}

module Text {

  /** The characters `String.prototype.trim` removes: the ECMAScript WhiteSpace
      and LineTerminator code points. */
  predicate IsWhitespace(c: char) {
    || c == ' ' || c == '\t' || c == '\n' || c == '\r'
    || c == '\U{B}' || c == '\U{C}' || c == '\U{A0}' || c == '\U{1680}'
    || ('\U{2000}' <= c <= '\U{200A}')
    || c == '\U{2028}' || c == '\U{2029}' || c == '\U{202F}' || c == '\U{205F}'
    || c == '\U{3000}' || c == '\U{FEFF}'
  }

  function TrimStart(s: string): (r: string)
    ensures |r| <= |s| && r == s[|s| - |r|..]
    ensures r == [] || !IsWhitespace(r[0])
  {
    if |s| > 0 && IsWhitespace(s[0]) then TrimStart(s[1..]) else s
  }

  function TrimEnd(s: string): (r: string)
    ensures |r| <= |s| && r == s[..|r|]
    ensures r == [] || !IsWhitespace(r[|r| - 1])
  {
    if |s| > 0 && IsWhitespace(s[|s| - 1]) then TrimEnd(s[..|s| - 1]) else s
  }

  /** Only whitespace is removed from the front. */
  lemma {:induction false} TrimStartRemovesWhitespace(s: string)
    ensures forall i :: 0 <= i < |s| - |TrimStart(s)| ==> IsWhitespace(s[i])
  {
    if |s| > 0 && IsWhitespace(s[0]) {
      TrimStartRemovesWhitespace(s[1..]);
      forall i | 1 <= i < |s| - |TrimStart(s)| ensures IsWhitespace(s[i]) {
        assert s[i] == s[1..][i - 1];
      }
    }
  }

  /** Only whitespace is removed from the back. */
  lemma {:induction false} TrimEndRemovesWhitespace(s: string)
    ensures forall i :: |TrimEnd(s)| <= i < |s| ==> IsWhitespace(s[i])
  {
    if |s| > 0 && IsWhitespace(s[|s| - 1]) {
      TrimEndRemovesWhitespace(s[..|s| - 1]);
      forall i | |TrimEnd(s)| <= i < |s| - 1 ensures IsWhitespace(s[i]) {
        assert s[i] == s[..|s| - 1][i];
      }
    }
  }

  /** `s.trim()`: the longest slice of `s` that neither starts nor ends with
      whitespace, obtained by removing whitespace only. */
  function Trim(s: string): (r: string)
    ensures r == [] || (!IsWhitespace(r[0]) && !IsWhitespace(r[|r| - 1]))
  {
    TrimEnd(TrimStart(s))
  }

  lemma {:induction false} TrimPrependWhitespace(c: char, s: string)
    requires IsWhitespace(c)
    ensures Trim([c] + s) == Trim(s)
  {
    assert ([c] + s)[1..] == s;
  }

  lemma {:induction false} TrimAppendWhitespace(s: string, c: char)
    requires IsWhitespace(c)
    ensures Trim(s + [c]) == Trim(s)
  {
    if |s| == 0 {
      assert TrimStart([c]) == TrimStart([c][1..]);
    } else if IsWhitespace(s[0]) {
      assert (s + [c])[1..] == s[1..] + [c];
      TrimAppendWhitespace(s[1..], c);
    } else {
      assert (s + [c])[..|s + [c]| - 1] == s;
    }
  }

  /** A string whose ends are not whitespace is its own trimmed form. */
  lemma TrimOfTrimmed(s: string)
    requires s == [] || (!IsWhitespace(s[0]) && !IsWhitespace(s[|s| - 1]))
    ensures Trim(s) == s
  {
  }

  lemma TrimIdempotent(s: string)
    ensures Trim(Trim(s)) == Trim(s)
  {
    TrimOfTrimmed(Trim(s));
  }

  /** A trimmed string that is not empty keeps every character that is not
      whitespace at either end of `s`; in particular its first character is
      the first non-whitespace character of `s`. */
  lemma {:induction false} TrimStartsAtFirstNonWhitespace(s: string, k: nat)
    requires k < |s| && !IsWhitespace(s[k])
    requires forall i :: 0 <= i < k ==> IsWhitespace(s[i])
    ensures |Trim(s)| > 0 && Trim(s)[0] == s[k]
  {
    var t := TrimStart(s);
    TrimStartRemovesWhitespace(s);
    assert |s| - |t| <= k;
    assert t == [] || t[0] == s[|s| - |t|];
    assert |s| - |t| == k;
    TrimEndRemovesWhitespace(t);
    assert Trim(s) == TrimEnd(t);
  }

  predicate StartsWith(s: string, prefix: string) {
    |prefix| <= |s| && s[..|prefix|] == prefix
  }

  predicate EndsWith(s: string, suffix: string) {
    |suffix| <= |s| && s[|s| - |suffix|..] == suffix
  }

  /** `sub` occurs in `s` starting at index `i`. */
  predicate OccursAt(s: string, sub: string, i: int) {
    0 <= i <= |s| - |sub| && s[i..i + |sub|] == sub
  }

  /** `s.includes(sub)`, scanning left to right. */
  function Contains(s: string, sub: string): bool {
    if StartsWith(s, sub) then true
    else if |s| == 0 then false
    else Contains(s[1..], sub)
  }

  /** The scan finds `sub` exactly when it occurs somewhere in `s`. */
  lemma {:induction false} ContainsMeansOccurs(s: string, sub: string)
    ensures Contains(s, sub) <==> exists i :: OccursAt(s, sub, i)
  {
    if StartsWith(s, sub) {
      assert OccursAt(s, sub, 0);
    } else if |s| > 0 {
      ContainsMeansOccurs(s[1..], sub);
      if j :| OccursAt(s[1..], sub, j) {
        assert s[j + 1..j + 1 + |sub|] == s[1..][j..j + |sub|];
        assert OccursAt(s, sub, j + 1);
      }
      if i :| OccursAt(s, sub, i) {
        assert i != 0;
        assert s[1..][i - 1..i - 1 + |sub|] == s[i..i + |sub|];
        assert OccursAt(s[1..], sub, i - 1);
      }
    }
  }

  lemma ContainsExtend(a: string, b: string, sub: string)
    requires Contains(a, sub)
    ensures Contains(a + b, sub)
  {
    ContainsMeansOccurs(a, sub);
    var i :| OccursAt(a, sub, i);
    assert (a + b)[i..i + |sub|] == a[i..i + |sub|];
    assert OccursAt(a + b, sub, i);
    ContainsMeansOccurs(a + b, sub);
  }

  lemma ContainsPiece(a: string, sub: string, b: string)
    ensures Contains(a + sub + b, sub)
  {
    assert (a + sub + b)[|a|..|a| + |sub|] == sub;
    assert OccursAt(a + sub + b, sub, |a|);
    ContainsMeansOccurs(a + sub + b, sub);
  }

  lemma ContainsPrepend(a: string, b: string, sub: string)
    requires Contains(b, sub)
    ensures Contains(a + b, sub)
  {
    ContainsMeansOccurs(b, sub);
    var i :| OccursAt(b, sub, i);
    assert (a + b)[|a| + i..|a| + i + |sub|] == b[i..i + |sub|];
    assert OccursAt(a + b, sub, |a| + i);
    ContainsMeansOccurs(a + b, sub);
  }

  /** Every character an occurrence covers belongs to the occurring text. */
  lemma OccurrenceCovers(s: string, sub: string, i: int, k: int)
    requires OccursAt(s, sub, i)
    ensures i <= k < i + |sub| ==> s[k] in sub
  {
    if i <= k < i + |sub| {
      assert s[k] == s[i..i + |sub|][k - i];
    }
  }

  /** A text free of `sep` occurs around a `sep` exactly when it occurs on one
      side of it. */
  lemma ContainsAroundSeparator(a: string, sep: char, b: string, sub: string)
    requires sep !in sub
    ensures Contains(a + [sep] + b, sub) <==> Contains(a, sub) || Contains(b, sub)
  {
    var s := a + [sep] + b;
    ContainsMeansOccurs(s, sub);
    ContainsMeansOccurs(a, sub);
    ContainsMeansOccurs(b, sub);
    if Contains(a, sub) {
      ContainsExtend(a, [sep] + b, sub);
      assert a + ([sep] + b) == s;
    }
    if Contains(b, sub) {
      ContainsPrepend(a + [sep], b, sub);
    }
    if Contains(s, sub) {
      var i :| OccursAt(s, sub, i);
      OccurrenceOnOneSide(a, sep, b, sub, i);
    }
  }

  lemma OccurrenceOnOneSide(a: string, sep: char, b: string, sub: string, i: int)
    requires sep !in sub && OccursAt(a + [sep] + b, sub, i)
    ensures OccursAt(a, sub, i) || OccursAt(b, sub, i - |a| - 1)
  {
    var s := a + [sep] + b;
    OccurrenceCovers(s, sub, i, |a|);
    assert s[|a|] == sep;
    if i + |sub| <= |a| {
      assert a[i..i + |sub|] == s[i..i + |sub|];
    } else {
      assert b[i - |a| - 1..i - |a| - 1 + |sub|] == s[i..i + |sub|];
    }
  }

  /** `xs.filter(keep)`: the elements that pass, in order. */
  function Filter<T>(xs: seq<T>, keep: T -> bool): seq<T> {
    if |xs| == 0 then []
    else (if keep(xs[0]) then [xs[0]] else []) + Filter(xs[1..], keep)
  }

  /** An element is kept exactly when it is there and passes. */
  lemma {:induction false} FilterMembers<T>(xs: seq<T>, keep: T -> bool)
    ensures forall x :: x in Filter(xs, keep) <==> x in xs && keep(x)
  {
    if |xs| > 0 {
      FilterMembers(xs[1..], keep);
      assert forall x :: x in xs <==> x == xs[0] || x in xs[1..];
    }
  }

  /** Filtering two parts gives the two filtered parts in order. */
  lemma {:induction false} FilterAppend<T>(xs: seq<T>, ys: seq<T>, keep: T -> bool)
    ensures Filter(xs + ys, keep) == Filter(xs, keep) + Filter(ys, keep)
  {
    if |xs| == 0 {
      assert xs + ys == ys;
    } else {
      FilterAppend(xs[1..], ys, keep);
      FilterAppendStep(xs, ys, keep);
    }
  }

  lemma FilterAppendStep<T>(xs: seq<T>, ys: seq<T>, keep: T -> bool)
    requires |xs| > 0
    requires Filter(xs[1..] + ys, keep) == Filter(xs[1..], keep) + Filter(ys, keep)
    ensures Filter(xs + ys, keep) == Filter(xs, keep) + Filter(ys, keep)
  {
    var head: seq<T> := if keep(xs[0]) then [xs[0]] else [];
    ConsOf(xs);
    AppendAssoc([xs[0]], xs[1..], ys);
    FilterCons(xs[0], xs[1..] + ys, keep);
    FilterCons(xs[0], xs[1..], keep);
    AppendAssoc(head, Filter(xs[1..], keep), Filter(ys, keep));
  }

  lemma FilterCons<T>(x: T, xs: seq<T>, keep: T -> bool)
    ensures Filter([x] + xs, keep) == (if keep(x) then [x] else []) + Filter(xs, keep)
  {
    assert ([x] + xs)[0] == x && ([x] + xs)[1..] == xs;
  }

  /** Nothing is kept exactly when nothing passes. */
  lemma {:induction false} FilterEmpty<T>(xs: seq<T>, keep: T -> bool)
    ensures Filter(xs, keep) == [] <==> forall i :: 0 <= i < |xs| ==> !keep(xs[i])
  {
    if |xs| > 0 {
      FilterEmpty(xs[1..], keep);
      assert forall i :: 1 <= i < |xs| ==> xs[i] == xs[1..][i - 1];
    }
  }

  /** The first kept element is the first element that passes. */
  lemma {:induction false} FilterFirst<T>(xs: seq<T>, keep: T -> bool, k: int)
    requires 0 <= k < |xs| && keep(xs[k])
    requires forall i :: 0 <= i < k ==> !keep(xs[i])
    ensures Filter(xs, keep) != [] && Filter(xs, keep)[0] == xs[k]
  {
    if k > 0 {
      FilterFirst(xs[1..], keep, k - 1);
    }
  }

  /** Dropping the first character moves every later occurrence one place
      to the left. */
  lemma OccursAtTail(s: string, sub: string, i: int)
    requires |s| > 0 && i >= 1
    ensures OccursAt(s, sub, i) <==> OccursAt(s[1..], sub, i - 1)
  {
    if 0 <= i - 1 <= |s| - 1 - |sub| {
      assert s[1..][i - 1..i - 1 + |sub|] == s[i..i + |sub|];
    }
  }

  /** `s.split(pattern)[0]` for a text pattern: the part of `s` before the
      first occurrence of `pattern`, or all of `s` when there is none. */
  function BeforeFirst(s: string, pattern: string): string
    requires |pattern| > 0
  {
    if StartsWith(s, pattern) then []
    else if |s| == 0 then []
    else [s[0]] + BeforeFirst(s[1..], pattern)
  }

  /** The result is a prefix of `s` with no occurrence of the pattern starting
      inside it, and it either is all of `s` or is followed by the pattern. */
  lemma {:induction false} BeforeFirstSpec(s: string, pattern: string)
    requires |pattern| > 0
    ensures BeforeFirstHolds(s, pattern, BeforeFirst(s, pattern))
  {
    if !StartsWith(s, pattern) && |s| > 0 {
      BeforeFirstSpec(s[1..], pattern);
      BeforeFirstStep(s, pattern, BeforeFirst(s[1..], pattern));
    }
  }

  /** What `BeforeFirstSpec` states about a result `r`. */
  predicate BeforeFirstHolds(s: string, pattern: string, r: string) {
    && StartsWith(s, r)
    && (r == s || OccursAt(s, pattern, |r|))
    && (forall i :: 0 <= i < |r| ==> !OccursAt(s, pattern, i))
  }

  /** A result for the text without its first character, behind that
      character, is a result for the whole text. */
  lemma BeforeFirstStep(s: string, pattern: string, rest: string)
    requires |s| > 0 && !OccursAt(s, pattern, 0)
    requires BeforeFirstHolds(s[1..], pattern, rest)
    ensures BeforeFirstHolds(s, pattern, [s[0]] + rest)
  {
    assert s == [s[0]] + s[1..];
    forall i | 1 <= i <= |rest| {
      OccursAtTail(s, pattern, i);
    }
    OccursAtTail(s, pattern, |rest| + 1);
  }

  /** `s.lastIndexOf(c)`: the index of the last `c`, or -1 when there is none. */
  function LastIndexOf(s: string, c: char): (r: int)
    ensures -1 <= r < |s|
    ensures r == -1 <==> c !in s
    ensures r >= 0 ==> s[r] == c && forall j :: r < j < |s| ==> s[j] != c
  {
    if |s| == 0 then -1
    else if s[|s| - 1] == c then |s| - 1
    else
      var r := LastIndexOf(s[..|s| - 1], c);
      assert c !in s[..|s| - 1] ==> c !in s by {
        if c !in s[..|s| - 1] {
          forall i | 0 <= i < |s| ensures s[i] != c {
            if i < |s| - 1 { assert s[i] == s[..|s| - 1][i]; }
          }
        }
      }
      r
  }

  /** `s.split(sep)` for a one-character separator: the pieces between the
      occurrences of `sep`; there is always at least one piece. */
  function Split(s: string, sep: char): (r: seq<string>)
    ensures |r| >= 1
  {
    if |s| == 0 then [[]]
    else if s[0] == sep then [[]] + Split(s[1..], sep)
    else
      var rest := Split(s[1..], sep);
      [[s[0]] + rest[0]] + rest[1..]
  }

  /** No piece of a split holds the separator. */
  lemma {:induction false} SplitPiecesAvoidSeparator(s: string, sep: char)
    ensures forall i :: 0 <= i < |Split(s, sep)| ==> sep !in Split(s, sep)[i]
  {
    if |s| > 0 {
      SplitPiecesAvoidSeparator(s[1..], sep);
      if s[0] != sep {
        var rest := Split(s[1..], sep);
        assert sep !in [s[0]] + rest[0];
      }
    }
  }

  /** `pieces.join(sep)`. */
  function Join(pieces: seq<string>, sep: string): string {
    if |pieces| == 0 then []
    else if |pieces| == 1 then pieces[0]
    else pieces[0] + sep + Join(pieces[1..], sep)
  }

  lemma {:induction false} SplitWithoutSeparator(s: string, sep: char)
    requires sep !in s
    ensures Split(s, sep) == [s]
  {
    if |s| > 0 {
      SplitWithoutSeparator(s[1..], sep);
      assert [s[0]] + s[1..] == s;
    }
  }

  /** Splitting distributes over a separator occurrence. */
  lemma {:induction false} SplitAtSeparator(a: string, b: string, sep: char)
    ensures Split(a + [sep] + b, sep) == Split(a, sep) + Split(b, sep)
  {
    if |a| == 0 {
      assert a + [sep] + b == [sep] + b;
      SplitCons(sep, b, sep);
    } else {
      SplitAtSeparator(a[1..], b, sep);
      SplitAtSeparatorStep(a, b, sep);
    }
  }

  /** The step of `SplitAtSeparator`: from the text without its first
      character to the whole text. */
  lemma SplitAtSeparatorStep(a: string, b: string, sep: char)
    requires |a| > 0
    requires Split(a[1..] + [sep] + b, sep) == Split(a[1..], sep) + Split(b, sep)
    ensures Split(a + [sep] + b, sep) == Split(a, sep) + Split(b, sep)
  {
    var c, a' := a[0], a[1..];
    ConsOf(a);
    AppendAssoc([c], a', [sep]);
    AppendAssoc([c], a' + [sep], b);
    SplitCons(c, a' + [sep] + b, sep);
    SplitCons(c, a', sep);
    if c == sep {
      AppendAssoc([[]], Split(a', sep), Split(b, sep));
    } else {
      PrefixFirstOfAppend(c, Split(a', sep), Split(b, sep));
    }
  }

  lemma AppendAssoc<T>(x: seq<T>, y: seq<T>, z: seq<T>)
    ensures x + (y + z) == (x + y) + z
  {
  }

  lemma ConsOf<T>(a: seq<T>)
    requires |a| > 0
    ensures a == [a[0]] + a[1..]
  {
  }

  /** Prefixing the first piece commutes with appending more pieces. */
  lemma PrefixFirstOfAppend(c: char, rest: seq<string>, more: seq<string>)
    requires |rest| >= 1
    ensures var r := rest + more;
      [[c] + r[0]] + r[1..] == [[c] + rest[0]] + rest[1..] + more
  {
    assert (rest + more)[1..] == rest[1..] + more;
  }

  /** Joining the pieces of a split gives back the text. */
  lemma {:induction false} JoinSplit(s: string, sep: char)
    ensures Join(Split(s, sep), [sep]) == s
  {
    if |s| > 0 {
      JoinSplit(s[1..], sep);
      var rest := Split(s[1..], sep);
      if s[0] == sep {
        assert [s[0]] + s[1..] == s;
      } else if |rest| == 1 {
        assert [s[0]] + s[1..] == s;
      } else {
        assert Join(rest, [sep]) == rest[0] + [sep] + Join(rest[1..], [sep]);
        assert [s[0]] + s[1..] == s;
      }
    }
  }

  /** `pieces` with `suffix` appended to every piece but the last. */
  function SuffixAllButLast(pieces: seq<string>, suffix: string): (r: seq<string>)
    ensures |r| == |pieces|
  {
    if |pieces| <= 1 then pieces
    else [pieces[0] + suffix] + SuffixAllButLast(pieces[1..], suffix)
  }

  /** Joining with `prefix + sep` and splitting at `sep` again gives the pieces
      back, each but the last followed by `prefix`. */
  lemma {:induction false} SplitJoin(pieces: seq<string>, prefix: string, sep: char)
    requires |pieces| >= 1
    requires forall i :: 0 <= i < |pieces| ==> sep !in pieces[i]
    requires sep !in prefix
    ensures Split(Join(pieces, prefix + [sep]), sep) == SuffixAllButLast(pieces, prefix)
  {
    if |pieces| == 1 {
      SplitWithoutSeparator(pieces[0], sep);
    } else {
      var head := pieces[0] + prefix;
      var tail := Join(pieces[1..], prefix + [sep]);
      assert Join(pieces, prefix + [sep]) == head + [sep] + tail;
      SplitAtSeparator(head, tail, sep);
      SplitWithoutSeparator(head, sep);
      SplitJoin(pieces[1..], prefix, sep);
    }
  }

  /** Splitting a text that starts with a given character. */
  lemma SplitCons(c: char, s: string, sep: char)
    ensures var rest := Split(s, sep);
      Split([c] + s, sep) == if c == sep then [[]] + rest else [[c] + rest[0]] + rest[1..]
  {
    assert ([c] + s)[0] == c && ([c] + s)[1..] == s;
  }

  /** `ps` with `tail` appended to its last piece. */
  function ExtendLast(ps: seq<string>, tail: string): seq<string>
    requires |ps| >= 1
  {
    ps[..|ps| - 1] + [ps[|ps| - 1] + tail]
  }

  lemma ExtendLastAfterEmpty(rest: seq<string>, tail: string)
    requires |rest| >= 1
    ensures [[]] + ExtendLast(rest, tail) == ExtendLast([[]] + rest, tail)
  {
    assert ([[]] + rest)[..|rest|] == [[]] + rest[..|rest| - 1];
  }

  lemma ExtendLastOfJoined(c: char, rest: seq<string>, tail: string)
    requires |rest| >= 1
    ensures var e := ExtendLast(rest, tail);
      [[c] + e[0]] + e[1..] == ExtendLast([[c] + rest[0]] + rest[1..], tail)
  {
    var e := ExtendLast(rest, tail);
    if |rest| == 1 {
      assert e == [rest[0] + tail];
      assert [c] + (rest[0] + tail) == ([c] + rest[0]) + tail;
    } else {
      assert e[0] == rest[0];
      assert e[1..] == rest[1..|rest| - 1] + [rest[|rest| - 1] + tail];
    }
  }

  /** Appending text without a separator extends the last piece. */
  lemma {:induction false} SplitExtendLast(s: string, tail: string, sep: char)
    requires sep !in tail
    ensures Split(s + tail, sep) == ExtendLast(Split(s, sep), tail)
  {
    if |s| == 0 {
      SplitWithoutSeparator(tail, sep);
      assert s + tail == tail && Split(s, sep) == [[]];
      assert [] + tail == tail;
    } else {
      assert s + tail == [s[0]] + (s[1..] + tail);
      assert s == [s[0]] + s[1..];
      SplitExtendLast(s[1..], tail, sep);
      SplitCons(s[0], s[1..] + tail, sep);
      SplitCons(s[0], s[1..], sep);
      var rest := Split(s[1..], sep);
      if s[0] == sep {
        ExtendLastAfterEmpty(rest, tail);
      } else {
        ExtendLastOfJoined(s[0], rest, tail);
      }
    }
  }

  /** A piece of a split holds only characters of the text. */
  lemma {:induction false} SplitPiecesFromText(s: string, sep: char, c: char)
    requires c !in s
    ensures forall i :: 0 <= i < |Split(s, sep)| ==> c !in Split(s, sep)[i]
  {
    if |s| > 0 {
      assert c !in s[1..] by {
        forall j | 0 <= j < |s| - 1 ensures s[1..][j] != c { assert s[1..][j] == s[j + 1]; }
      }
      SplitPiecesFromText(s[1..], sep, c);
    }
  }

  lemma {:induction false} JoinAppend(pieces: seq<string>, last: string, sep: string)
    requires |pieces| >= 1
    ensures Join(pieces + [last], sep) == Join(pieces, sep) + sep + last
  {
    if |pieces| > 1 {
      assert (pieces + [last])[1..] == pieces[1..] + [last];
      JoinAppend(pieces[1..], last, sep);
    }
  }

  /** A text free of `sep` occurs in pieces joined by `sep` exactly when it
      occurs in one of the pieces. */
  lemma {:induction false} ContainsInJoin(pieces: seq<string>, sep: char, sub: string)
    requires |pieces| >= 1 && sep !in sub
    ensures Contains(Join(pieces, [sep]), sub) <==>
      exists i :: 0 <= i < |pieces| && Contains(pieces[i], sub)
  {
    if |pieces| > 1 {
      var rest := pieces[1..];
      ContainsInJoin(rest, sep, sub);
      ContainsAroundSeparator(pieces[0], sep, Join(rest, [sep]), sub);
      if i :| 0 <= i < |pieces| && Contains(pieces[i], sub) {
        if i > 0 {
          assert Contains(rest[i - 1], sub);
        }
      }
      if j :| 0 <= j < |rest| && Contains(rest[j], sub) {
        assert Contains(pieces[j + 1], sub);
      }
    }
  }

  /** A lowercase ASCII letter becomes the same letter in upper case; every
      other character is kept. */
  function UpperChar(c: char): (r: char)
    ensures 'a' <= c <= 'z' ==> 'A' <= r <= 'Z' && r as int - 'A' as int == c as int - 'a' as int
    ensures !('a' <= c <= 'z') ==> r == c
  {
    if 'a' <= c <= 'z' then (c as int - 32) as char else c
  }

  /** An uppercase ASCII letter becomes the same letter in lower case; every
      other character is kept. */
  function LowerChar(c: char): (r: char)
    ensures 'A' <= c <= 'Z' ==> 'a' <= r <= 'z' && r as int - 'a' as int == c as int - 'A' as int
    ensures !('A' <= c <= 'Z') ==> r == c
  {
    if 'A' <= c <= 'Z' then (c as int + 32) as char else c
  }

  /** Upper and lower case undo each other on the ASCII letters. */
  lemma CaseRoundTrip(c: char)
    ensures 'a' <= c <= 'z' ==> LowerChar(UpperChar(c)) == c
    ensures 'A' <= c <= 'Z' ==> UpperChar(LowerChar(c)) == c
  {
  }

  /** `s.toUpperCase()`, restricted to the ASCII letters. */
  function Upper(s: string): (r: string)
    ensures |r| == |s| && forall i :: 0 <= i < |s| ==> r[i] == UpperChar(s[i])
  {
    if |s| == 0 then [] else [UpperChar(s[0])] + Upper(s[1..])
  }

  /** `s.toLowerCase()`, restricted to the ASCII letters. */
  function Lower(s: string): (r: string)
    ensures |r| == |s| && forall i :: 0 <= i < |s| ==> r[i] == LowerChar(s[i])
  {
    if |s| == 0 then [] else [LowerChar(s[0])] + Lower(s[1..])
  }
}
