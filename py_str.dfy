/** The Python `str` built-ins the scripts rely on, as functions on `seq<char>`,
    with the round trips and shape facts the other modules use. */
module PyStr {

  datatype Option<+T> = None | Some(value: T)

  /** `c.isspace()`: the characters Python's `str.split()`, `str.strip()` and the
      regular-expression class `\s` treat as whitespace. */
  predicate IsSpace(c: char) {
    c == ' ' || ('\t' <= c <= '\r') || ('\U{1c}' <= c <= '\U{1f}')
    || c == '\U{85}' || c == '\U{a0}' || c == '\U{1680}'
    || ('\U{2000}' <= c <= '\U{200a}') || c == '\U{2028}' || c == '\U{2029}'
    || c == '\U{202f}' || c == '\U{205f}' || c == '\U{3000}'
  }

  predicate NotSpace(c: char) { !IsSpace(c) }

  /** The 29 characters for which Python's `str.isspace()` holds (Unicode 15.0). */
  const PY_WHITESPACE: set<char> := {'\U{9}', '\U{a}', '\U{b}', '\U{c}', '\U{d}', '\U{1c}', '\U{1d}', '\U{1e}', '\U{1f}', '\U{20}',
                                  '\U{85}', '\U{a0}', '\U{1680}', '\U{2000}', '\U{2001}', '\U{2002}', '\U{2003}', '\U{2004}',
                                  '\U{2005}', '\U{2006}', '\U{2007}', '\U{2008}', '\U{2009}', '\U{200a}', '\U{2028}',
                                  '\U{2029}', '\U{202f}', '\U{205f}', '\U{3000}'}

  /** `IsSpace` holds of exactly the characters Python calls whitespace. */
  lemma WhitespaceChars(c: char)
    ensures IsSpace(c) <==> c in PY_WHITESPACE
  {
  }

  /** The regular-expression class `\d`, restricted to ASCII digits. */
  predicate IsDigit(c: char) { '0' <= c <= '9' }

  predicate AllDigits(s: string) { forall i :: 0 <= i < |s| ==> IsDigit(s[i]) }

  // ---------------------------------------------------------------- lower()

  function LowerChar(c: char): char {
    if 'A' <= c <= 'Z' then (c as int + 32) as char else c
  }

  /** `s.lower()` on the ASCII letters. */
  function Lower(s: string): (r: string)
    ensures |r| == |s|
    ensures forall i :: 0 <= i < |s| ==> r[i] == LowerChar(s[i])
  {
    if s == [] then [] else [LowerChar(s[0])] + Lower(s[1..])
  }

  lemma {:induction false} LowerIdempotent(s: string)
    ensures Lower(Lower(s)) == Lower(s)
  {
    if s != [] {
      LowerIdempotent(s[1..]);
      assert Lower(s)[1..] == Lower(s[1..]);
    }
  }

  /** A string with no ASCII capital is its own lower-case form. */
  lemma LowerIdentity(s: string)
    requires forall i :: 0 <= i < |s| ==> !('A' <= s[i] <= 'Z')
    ensures Lower(s) == s
  {
  }

  // ---------------------------------------------------------------- strip()

  function LStrip(s: string): (r: string)
    ensures |r| <= |s| && r == s[|s| - |r|..]
    ensures r == [] || NotSpace(r[0])
  {
    if s != [] && IsSpace(s[0]) then LStrip(s[1..]) else s
  }

  function RStrip(s: string): (r: string)
    ensures |r| <= |s| && r == s[..|r|]
    ensures r == [] || NotSpace(r[|r| - 1])
  {
    if s != [] && IsSpace(s[|s| - 1]) then RStrip(s[..|s| - 1]) else s
  }

  /** `s.strip()`: the longest slice of `s` that neither starts nor ends with whitespace;
      only whitespace is dropped. */
  function Strip(s: string): (r: string)
    ensures r == [] || (NotSpace(r[0]) && NotSpace(r[|r| - 1]))
  {
    RStrip(LStrip(s))
  }

  lemma {:induction false} RStripKeepsHead(s: string)
    requires s == [] || NotSpace(s[0])
    ensures RStrip(s) == [] || RStrip(s)[0] == s[0]
  {
    if s != [] && IsSpace(s[|s| - 1]) {
      RStripKeepsHead(s[..|s| - 1]);
    }
  }

  /** A string that already starts and ends with a non-space character is unchanged by strip(). */
  lemma StripIdentity(s: string)
    requires s == [] || (NotSpace(s[0]) && NotSpace(s[|s| - 1]))
    ensures Strip(s) == s
  {
  }

  lemma StripIdempotent(s: string)
    ensures Strip(Strip(s)) == Strip(s)
  {
    StripIdentity(Strip(s));
  }

  lemma {:induction false} LowerOfLStrip(s: string)
    ensures Lower(LStrip(s)) == LStrip(Lower(s))
  {
    var l := Lower(s);
    if s != [] {
      LowerCharSpace(s[0]);
      if IsSpace(s[0]) {
        LStripDrop(s);
        LStripDrop(l);
        LowerTail(s);
        LowerOfLStrip(s[1..]);
      } else {
        LStripKeep(s);
        LStripKeep(l);
      }
    }
  }

  /** A lower-cased string holds no ASCII capital. */
  lemma LowerNoCapital(s: string)
    ensures forall x :: x in Lower(s) ==> !('A' <= x <= 'Z')
  {
  }

  /** Stripping only removes characters. */
  lemma StripInside(s: string)
    ensures forall x :: x in Strip(s) ==> x in s
  {
    var a := LStrip(s);
    assert forall x :: x in a ==> x in s by {
      forall x | x in a ensures x in s {
        var i :| 0 <= i < |a| && a[i] == x;
        assert s[|s| - |a| + i] == x;
      }
    }
    assert forall x :: x in RStrip(a) ==> x in a by {
      forall x | x in RStrip(a) ensures x in a {
        var i :| 0 <= i < |RStrip(a)| && RStrip(a)[i] == x;
        assert a[i] == x;
      }
    }
  }

  /** Lower-casing keeps whitespace and non-whitespace apart. */
  lemma LowerCharSpace(c: char)
    ensures IsSpace(LowerChar(c)) <==> IsSpace(c)
  {
  }

  /** Lower-casing works on every prefix alike. */
  lemma LowerPrefix(s: string, k: nat)
    requires k <= |s|
    ensures Lower(s)[..k] == Lower(s[..k])
  {
  }

  /** Lower-casing works on the tail alike. */
  lemma LowerTail(s: string)
    requires s != []
    ensures Lower(s)[1..] == Lower(s[1..])
  {
  }

  lemma LStripDrop(s: string)
    requires s != [] && IsSpace(s[0])
    ensures LStrip(s) == LStrip(s[1..])
  {
  }

  lemma LStripKeep(s: string)
    requires s == [] || NotSpace(s[0])
    ensures LStrip(s) == s
  {
  }

  lemma RStripDrop(s: string)
    requires s != [] && IsSpace(s[|s| - 1])
    ensures RStrip(s) == RStrip(s[..|s| - 1])
  {
  }

  lemma RStripKeep(s: string)
    requires s == [] || NotSpace(s[|s| - 1])
    ensures RStrip(s) == s
  {
  }

  lemma {:induction false} LowerOfRStrip(s: string)
    ensures Lower(RStrip(s)) == RStrip(Lower(s))
  {
    var l := Lower(s);
    if s == [] {
    } else {
      var n := |s| - 1;
      LowerCharSpace(s[n]);
      if IsSpace(s[n]) {
        RStripDrop(s);
        RStripDrop(l);
        LowerPrefix(s, n);
        LowerOfRStrip(s[..n]);
      } else {
        RStripKeep(s);
        RStripKeep(l);
      }
    }
  }

  /** Lower-casing never touches whitespace, so it commutes with strip(). */
  lemma LowerOfStrip(s: string)
    ensures Lower(Strip(s)) == Strip(Lower(s))
  {
    LowerOfRStrip(LStrip(s));
    LowerOfLStrip(s);
  }

  // ---------------------------------------------------------------- prefixes, substrings

  predicate HasPrefix(s: string, p: string) {
    |p| <= |s| && s[..|p|] == p
  }

  predicate OccursAt(s: string, sub: string, i: int) {
    0 <= i && i + |sub| <= |s| && s[i..i + |sub|] == sub
  }

  /** `sub in s` for strings. */
  ghost predicate Contains(s: string, sub: string) {
    exists i :: OccursAt(s, sub, i)
  }

  /** Left-to-right substring search, as `re.search` on a literal pattern does it. */
  function Find(s: string, sub: string): (r: bool)
    ensures r <==> Contains(s, sub)
    decreases |s|
  {
    if |s| < |sub| then
      assert forall i :: !OccursAt(s, sub, i);
      false
    else if s[..|sub|] == sub then
      assert OccursAt(s, sub, 0);
      true
    else
      var r := Find(s[1..], sub);
      assert forall i :: OccursAt(s[1..], sub, i) <==> OccursAt(s, sub, i + 1) by {
        forall i ensures OccursAt(s[1..], sub, i) <==> OccursAt(s, sub, i + 1) {
          if 0 <= i && i + |sub| <= |s[1..]| {
            assert s[1..][i..i + |sub|] == s[i + 1..i + 1 + |sub|];
          }
        }
      }
      assert !OccursAt(s, sub, 0);
      assert Contains(s, sub) ==> Contains(s[1..], sub) by {
        if Contains(s, sub) {
          var i :| OccursAt(s, sub, i);
          assert OccursAt(s[1..], sub, i - 1);
        }
      }
      r
  }

  // ---------------------------------------------------------------- counting, replace(c, '')

  function Count(s: string, c: char): (n: nat)
    ensures n <= |s|
  {
    if s == [] then 0 else (if s[0] == c then 1 else 0) + Count(s[1..], c)
  }

  lemma {:induction false} CountZero(s: string, c: char)
    ensures Count(s, c) == 0 <==> c !in s
  {
    if s != [] {
      CountZero(s[1..], c);
      assert c in s <==> s[0] == c || c in s[1..];
    }
  }

  /** `s.replace(c, '')`: `s` with every `c` dropped. */
  function RemoveChar(s: string, c: char): (r: string)
    ensures c !in r
    ensures |r| == |s| - Count(s, c)
    ensures forall x :: x in r <==> x in s && x != c
  {
    if s == [] then []
    else
      var rest := RemoveChar(s[1..], c);
      assert forall x :: x in s <==> x == s[0] || x in s[1..];
      if s[0] == c then rest else [s[0]] + rest
  }

  /** Removing a character that is absent changes nothing. */
  lemma {:induction false} RemoveCharAbsent(s: string, c: char)
    requires c !in s
    ensures RemoveChar(s, c) == s
  {
    if s != [] {
      RemoveCharAbsent(s[1..], c);
      assert [s[0]] + s[1..] == s;
    }
  }

  /** `replace(c, '')` works piecewise. */
  lemma {:induction false} RemoveCharConcat(x: string, y: string, c: char)
    ensures RemoveChar(x + y, c) == RemoveChar(x, c) + RemoveChar(y, c)
  {
    if x == [] {
      assert x + y == y;
    } else {
      assert (x + y)[1..] == x[1..] + y;
      RemoveCharConcat(x[1..], y, c);
    }
  }

  // ---------------------------------------------------------------- split(sep) and sep.join

  /** `s.split(c)` for a one-character separator. */
  function Split(s: string, c: char): (parts: seq<string>)
    ensures |parts| >= 1
    ensures forall i :: 0 <= i < |parts| ==> c !in parts[i]
  {
    if s == [] then [[]]
    else
      var rest := Split(s[1..], c);
      if s[0] == c then [[]] + rest
      else [[s[0]] + rest[0]] + rest[1..]
  }

  /** `c.join(parts)`. */
  function Join(parts: seq<string>, c: char): string {
    if parts == [] then []
    else if |parts| == 1 then parts[0]
    else parts[0] + [c] + Join(parts[1..], c)
  }

  /** Splitting makes one more part than there are separators. */
  lemma {:induction false} SplitCount(s: string, c: char)
    ensures |Split(s, c)| == Count(s, c) + 1
  {
    if s != [] {
      SplitCount(s[1..], c);
    }
  }

  /** Joining the parts with the separator gives back the string. */
  lemma {:induction false} SplitJoin(s: string, c: char)
    ensures Join(Split(s, c), c) == s
  {
    if s != [] {
      SplitJoin(s[1..], c);
      var rest := Split(s[1..], c);
      if s[0] != c && |rest| > 1 {
        assert ([[s[0]] + rest[0]] + rest[1..])[1..] == rest[1..];
        assert Join(rest, c) == rest[0] + [c] + Join(rest[1..], c);
      }
    }
  }

  /** The first part is the longest prefix without the separator. */
  lemma {:induction false} SplitHead(s: string, c: char)
    ensures HasPrefix(s, Split(s, c)[0])
    ensures |Split(s, c)[0]| == |s| || s[|Split(s, c)[0]|] == c
  {
    if s != [] {
      SplitHead(s[1..], c);
    }
  }

  /** Splitting `w + [c] + rest` where `w` has no separator. */
  lemma {:induction false} SplitAfterPart(w: string, c: char, rest: string)
    requires c !in w
    ensures Split(w + [c] + rest, c) == [w] + Split(rest, c)
  {
    var s := w + [c] + rest;
    if w == [] {
      assert s == [c] + rest;
      assert s[1..] == rest;
    } else {
      assert s[1..] == w[1..] + [c] + rest;
      SplitAfterPart(w[1..], c, rest);
      assert s[0] == w[0] && w[0] != c;
      assert [w[0]] + w[1..] == w;
    }
  }

  lemma {:induction false} SplitNoSeparator(w: string, c: char)
    requires c !in w
    ensures Split(w, c) == [w]
  {
    if w != [] {
      SplitNoSeparator(w[1..], c);
      assert [w[0]] + w[1..] == w;
    }
  }

  /** Splitting the joined parts returns them, when no part holds the separator. */
  lemma {:induction false} JoinSplit(parts: seq<string>, c: char)
    requires parts != []
    requires forall i :: 0 <= i < |parts| ==> c !in parts[i]
    ensures Split(Join(parts, c), c) == parts
  {
    if |parts| == 1 {
      SplitNoSeparator(parts[0], c);
    } else {
      JoinSplit(parts[1..], c);
      SplitAfterPart(parts[0], c, Join(parts[1..], c));
    }
  }

  // ---------------------------------------------------------------- runs and split()

  /** The number of leading characters of `s` that satisfy `p`. */
  function LeadingRun(s: string, p: char -> bool): (n: nat)
    ensures n <= |s|
    ensures forall i :: 0 <= i < n ==> p(s[i])
    ensures n == |s| || !p(s[n])
  {
    if s != [] && p(s[0]) then 1 + LeadingRun(s[1..], p) else 0
  }

  /** A run that is cut off inside `x` (or right at its end) does not see `y`. */
  lemma {:induction false} LeadingRunConcat(x: string, y: string, p: char -> bool)
    requires (x != [] && !p(x[|x| - 1])) || y == [] || !p(y[0])
    ensures LeadingRun(x + y, p) == LeadingRun(x, p)
  {
    if x == [] {
    } else if p(x[0]) {
      assert (x + y)[1..] == x[1..] + y;
      LeadingRunConcat(x[1..], y, p);
    }
  }

  /** A string whose every character satisfies `p` is one run. */
  lemma {:induction false} LeadingRunAll(s: string, p: char -> bool)
    requires forall i :: 0 <= i < |s| ==> p(s[i])
    ensures LeadingRun(s, p) == |s|
  {
    if s != [] {
      LeadingRunAll(s[1..], p);
    }
  }

  /** `s.split()`: the maximal runs of non-whitespace characters, in order. */
  function Words(s: string): (ws: seq<string>)
    ensures forall i :: 0 <= i < |ws| ==> ws[i] != [] && forall j :: 0 <= j < |ws[i]| ==> NotSpace(ws[i][j])
    decreases |s|
  {
    if s == [] then []
    else if IsSpace(s[0]) then Words(s[1..])
    else
      var n := LeadingRun(s, NotSpace);
      [s[..n]] + Words(s[n..])
  }

  /** `" ".join(ws)`. */
  function JoinSpace(ws: seq<string>): (r: string)
    ensures ws != [] && (forall i :: 0 <= i < |ws| ==> ' ' !in ws[i]) ==> Count(r, ' ') == |ws| - 1
  {
    if ws != [] && (forall i :: 0 <= i < |ws| ==> ' ' !in ws[i]) then
      JoinSplit(ws, ' ');
      SplitCount(Join(ws, ' '), ' ');
      Join(ws, ' ')
    else Join(ws, ' ')
  }

  predicate IsWord(w: string) {
    w != [] && forall j :: 0 <= j < |w| ==> NotSpace(w[j])
  }

  lemma WordsOfWord(w: string, rest: string)
    requires IsWord(w)
    requires rest == [] || IsSpace(rest[0])
    ensures Words(w + rest) == [w] + Words(rest)
  {
    LeadingRunConcat(w, rest, NotSpace);
    assert (w + rest)[..|w|] == w;
    assert (w + rest)[|w|..] == rest;
  }

  /** Splitting the space-joined words on whitespace gives back the words. */
  lemma {:induction false} WordsJoinSpace(ws: seq<string>)
    requires forall i :: 0 <= i < |ws| ==> IsWord(ws[i])
    ensures Words(JoinSpace(ws)) == ws
  {
    if ws == [] {
    } else if |ws| == 1 {
      WordsOfWord(ws[0], []);
      assert ws[0] + [] == ws[0];
    } else {
      WordsJoinSpace(ws[1..]);
      var tail := JoinSpace(ws[1..]);
      assert JoinSpace(ws) == ws[0] + ([' '] + tail);
      WordsOfWord(ws[0], [' '] + tail);
      assert ([' '] + tail)[1..] == tail;
    }
  }

  /** Every character of a space-joined list is a space or a character of one of the words. */
  lemma {:induction false} JoinSpaceChars(ws: seq<string>, p: char -> bool)
    requires forall i, j :: 0 <= i < |ws| && 0 <= j < |ws[i]| ==> p(ws[i][j])
    ensures forall k :: 0 <= k < |JoinSpace(ws)| ==> JoinSpace(ws)[k] == ' ' || p(JoinSpace(ws)[k])
  {
    if |ws| > 1 {
      JoinSpaceChars(ws[1..], p);
      var tail := JoinSpace(ws[1..]);
      assert JoinSpace(ws) == ws[0] + [' '] + tail;
      forall k | 0 <= k < |JoinSpace(ws)|
        ensures JoinSpace(ws)[k] == ' ' || p(JoinSpace(ws)[k])
      {
        if k < |ws[0]| {
          assert JoinSpace(ws)[k] == ws[0][k];
        } else if k > |ws[0]| {
          assert JoinSpace(ws)[k] == tail[k - |ws[0]| - 1];
        }
      }
    } else if |ws| == 1 {
      assert JoinSpace(ws) == ws[0];
    }
  }
}
