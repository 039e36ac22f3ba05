/** The JavaScript string primitives the front end relies on, over strings
    modelled as sequences of code points: the `\s` class, `trim()`,
    `includes()`, a global literal `replace(..., '')`, `split(/\s+/)`,
    `join(' ')`, `replace(/\s+/g, ' ')`, `toLowerCase()` and `String(n)` for
    non-negative integers.
 */
module Text {
  import opened Common

  /** The JavaScript `\s` class: WhiteSpace and LineTerminator code points.
      `trim()` removes exactly the same set. */
  predicate IsSpace(c: char) {
    || c == '\t' || c == '\n' || c == '\U{000B}' || c == '\U{000C}' || c == '\r'
    || c == ' ' || c == '\U{00A0}' || c == '\U{1680}'
    || ('\U{2000}' <= c <= '\U{200A}')
    || c == '\U{2028}' || c == '\U{2029}' || c == '\U{202F}' || c == '\U{205F}'
    || c == '\U{3000}' || c == '\U{FEFF}'
  }

  /** `[^\s]`: a character outside the whitespace class. */
  function Visible(c: char): bool {
    !IsSpace(c)
  }

  predicate NoSpace(s: string) {
    forall k :: 0 <= k < |s| ==> !IsSpace(s[k])
  }

  predicate AllSpace(s: string) {
    forall k :: 0 <= k < |s| ==> IsSpace(s[k])
  }

  /** Neither the first nor the last character is whitespace. */
  predicate NoEdgeSpace(s: string) {
    |s| == 0 || (!IsSpace(s[0]) && !IsSpace(s[|s| - 1]))
  }

  /** Drops the leading whitespace run; the result is a suffix of `s`. */
  function TrimStart(s: string): (r: string)
    ensures |r| <= |s| && r == s[|s| - |r|..]
    ensures AllSpace(s[..|s| - |r|])
    ensures |r| == 0 || !IsSpace(r[0])
  {
    if |s| > 0 && IsSpace(s[0]) then
      var r := TrimStart(s[1..]);
      assert s[..|s| - |r|] == [s[0]] + s[1..][..|s| - 1 - |r|];
      r
    else s
  }

  /** Drops the trailing whitespace run; the result is a prefix of `s`. */
  function TrimEnd(s: string): (r: string)
    ensures |r| <= |s| && r == s[..|r|]
    ensures AllSpace(s[|r|..])
    ensures |r| == 0 || !IsSpace(r[|r| - 1])
  {
    if |s| > 0 && IsSpace(s[|s| - 1]) then
      var init := s[..|s| - 1];
      var r := TrimEnd(init);
      assert s[|r|..] == init[|r|..] + [s[|s| - 1]];
      r
    else s
  }

  /** `s.trim()`: `s` without its leading and trailing whitespace. Every
      string is, in exactly one way, whitespace, a middle part without edge
      whitespace, and whitespace; `TrimPadded` shows that `Trim` returns that
      middle part. */
  function Trim(s: string): (r: string)
    ensures NoEdgeSpace(r)
    ensures |r| <= |s|
  {
    TrimEdges(s);
    TrimEnd(TrimStart(s))
  }

  /** Both trims together leave no whitespace at either end. */
  lemma TrimEdges(s: string)
    ensures NoEdgeSpace(TrimEnd(TrimStart(s)))
  {
    var t := TrimStart(s);
    var r := TrimEnd(t);
    assert |r| > 0 ==> r[0] == t[0];
  }

  /** Trimming leaves a string without edge whitespace untouched. */
  lemma TrimNoEdge(s: string)
    requires NoEdgeSpace(s)
    ensures Trim(s) == s
  {
  }

  /** Trimming is idempotent. */
  lemma TrimTwice(s: string)
    ensures Trim(Trim(s)) == Trim(s)
  {
    TrimNoEdge(Trim(s));
  }

  /** A whitespace prefix is skipped by `TrimStart`. */
  lemma {:induction false} TrimStartAfterSpace(a: string, t: string)
    requires AllSpace(a)
    requires |t| == 0 || !IsSpace(t[0])
    ensures TrimStart(a + t) == t
    decreases |a|
  {
    if |a| > 0 {
      assert (a + t)[1..] == a[1..] + t;
      TrimStartAfterSpace(a[1..], t);
    } else {
      assert a + t == t;
    }
  }

  /** A whitespace suffix is skipped by `TrimEnd`. */
  lemma {:induction false} TrimEndBeforeSpace(t: string, b: string)
    requires AllSpace(b)
    requires |t| == 0 || !IsSpace(t[|t| - 1])
    ensures TrimEnd(t + b) == t
    decreases |b|
  {
    if |b| > 0 {
      assert (t + b)[..|t + b| - 1] == t + b[..|b| - 1];
      TrimEndBeforeSpace(t, b[..|b| - 1]);
    } else {
      assert t + b == t;
    }
  }

  /** Surrounding a string that has no edge whitespace with whitespace and
      trimming it gives the string back. */
  lemma TrimPadded(a: string, s: string, b: string)
    requires AllSpace(a) && AllSpace(b) && NoEdgeSpace(s)
    ensures Trim(a + s + b) == s
  {
    if |s| == 0 {
      assert a + s + b == a + b;
      TrimStartAfterSpace(a + b, "");
      assert a + b + "" == a + b;
    } else {
      assert a + s + b == a + (s + b);
      TrimStartAfterSpace(a, s + b);
      TrimEndBeforeSpace(s, b);
    }
  }

  /** `s.endsWith(suffix)`, case-sensitive. */
  predicate EndsWith(s: string, suffix: string) {
    |suffix| <= |s| && s[|s| - |suffix|..] == suffix
  }

  /** `s.includes(p)`: `p` occurs in `s` as a contiguous block. */
  predicate Includes(s: string, p: string)
    decreases |s|
  {
    p <= s || (|s| > 0 && Includes(s[1..], p))
  }

  /** `p` occurs in `s` starting at index `i`. */
  predicate OccursAt(s: string, p: string, i: int) {
    0 <= i <= |s| - |p| && s[i..i + |p|] == p
  }

  /** `Includes` means there is a position where `p` occurs. */
  lemma {:induction false} IncludesAt(s: string, p: string)
    ensures Includes(s, p) <==> exists i :: OccursAt(s, p, i)
    decreases |s|
  {
    if |s| > 0 {
      IncludesAt(s[1..], p);
      if exists i :: OccursAt(s, p, i) {
        var i :| OccursAt(s, p, i);
        if i > 0 {
          assert s[1..][i - 1..i - 1 + |p|] == s[i..i + |p|];
          assert OccursAt(s[1..], p, i - 1);
        } else {
          assert p <= s;
        }
      }
      if Includes(s[1..], p) {
        var i :| OccursAt(s[1..], p, i);
        assert s[i + 1..i + 1 + |p|] == s[1..][i..i + |p|];
        assert OccursAt(s, p, i + 1);
      }
      if p <= s {
        assert s[0..|p|] == p;
        assert OccursAt(s, p, 0);
      }
    } else {
      if |p| == 0 {
        assert OccursAt(s, p, 0);
      }
    }
  }

  /** A string shorter than `p` cannot include it. */
  lemma {:induction false} ShortExcludes(s: string, p: string)
    requires |s| < |p|
    ensures !Includes(s, p)
    decreases |s|
  {
    if |s| > 0 {
      ShortExcludes(s[1..], p);
    }
  }

  /** A character that does not occur is not included. */
  lemma {:induction false} AbsentCharExcluded(s: string, c: char)
    requires c !in s
    ensures !Includes(s, [c])
    decreases |s|
  {
    if |s| > 0 {
      assert forall x :: x in s[1..] ==> x in s;
      assert s[0] != c;
      assert !([c] <= s);
      AbsentCharExcluded(s[1..], c);
    }
  }

  /** Every string includes the empty string, so an empty search term matches
      everything. */
  lemma IncludesEmpty(s: string)
    ensures Includes(s, "")
  {
  }

  /** `s.replace(/p/g, '')` for a literal `p`: occurrences are found left to
      right without overlap and deleted; the text is scanned once. */
  function RemoveAll(s: string, p: string): (r: string)
    requires |p| > 0
    ensures |r| <= |s|
    ensures forall c :: c in r ==> c in s
    ensures |p| == 1 ==> p[0] !in r
    decreases |s|
  {
    if |s| == 0 then ""
    else if p <= s then RemoveAll(s[|p|..], p)
    else [s[0]] + RemoveAll(s[1..], p)
  }

  /** Where `p` starts, it is deleted and the scan goes on after it. */
  lemma RemoveAllSkipsMatch(s: string, p: string)
    requires |p| > 0 && p <= s
    ensures RemoveAll(s, p) == RemoveAll(s[|p|..], p)
  {
  }

  /** Where `p` does not start, the first character is kept. */
  lemma RemoveAllKeepsHead(s: string, p: string)
    requires |p| > 0 && |s| > 0 && !(p <= s)
    ensures RemoveAll(s, p) == [s[0]] + RemoveAll(s[1..], p)
  {
  }

  /** A string that does not include `p` is left unchanged. */
  lemma {:induction false} RemoveAllAbsent(s: string, p: string)
    requires |p| > 0 && !Includes(s, p)
    ensures RemoveAll(s, p) == s
    decreases |s|
  {
    if |s| > 0 {
      RemoveAllAbsent(s[1..], p);
    }
  }

  /** The predicate `x != c`, as a value for `Filter`. */
  function Other(c: char): char -> bool {
    x => x != c
  }

  /** Deleting a single character is filtering it out: every other character
      survives, in order. */
  lemma {:induction false} RemoveCharIsFilter(s: string, c: char)
    ensures RemoveAll(s, [c]) == Filter(s, Other(c))
    decreases |s|
  {
    if |s| > 0 {
      RemoveCharIsFilter(s[1..], c);
      assert [c] <= s <==> s[0] == c;
    }
  }

  /** Number of leading non-whitespace characters. */
  function WordLen(s: string): (n: nat)
    ensures n <= |s| && NoSpace(s[..n])
    ensures n == |s| || IsSpace(s[n])
  {
    if |s| == 0 || IsSpace(s[0]) then 0 else 1 + WordLen(s[1..])
  }

  /** `s.split(/\s+/)`: the pieces between maximal whitespace runs. A leading
      (trailing) run yields an empty first (last) piece; "" yields [""]. */
  function SplitWs(s: string): (r: seq<string>)
    ensures |r| >= 1
    ensures forall k :: 0 <= k < |r| ==> NoSpace(r[k])
    ensures forall k :: 0 < k < |r| - 1 ==> |r[k]| > 0
    ensures |s| > 0 && !IsSpace(s[0]) ==> |r[0]| > 0
    ensures r[0] == s[..WordLen(s)]
    decreases |s|
  {
    var n := WordLen(s);
    if n == |s| then [s]
    else
      var rest := TrimStart(s[n..]);
      assert IsSpace(s[n..][0]);
      var tail := SplitWs(rest);
      var r := [s[..n]] + tail;
      assert forall k :: 0 < k < |r| ==> r[k] == tail[k - 1];
      assert |rest| > 0 ==> |tail[0]| > 0;
      assert |rest| == 0 ==> tail == [""];
      r
  }

  /** `ws.join(' ')`. */
  function JoinSpace(ws: seq<string>): string {
    if |ws| == 0 then ""
    else if |ws| == 1 then ws[0]
    else ws[0] + " " + JoinSpace(ws[1..])
  }

  /** Non-empty, whitespace-free words. */
  predicate Words(ws: seq<string>) {
    forall k :: 0 <= k < |ws| ==> |ws[k]| > 0 && NoSpace(ws[k])
  }

  /** Joining whitespace-free words, then splitting, gives the words back. */
  lemma {:induction false} SplitJoin(ws: seq<string>)
    requires |ws| >= 1
    requires Words(ws)
    ensures SplitWs(JoinSpace(ws)) == ws
    decreases |ws|
  {
    var w := ws[0];
    if |ws| == 1 {
      WordLenOfWord(w, "");
      assert w + "" == w;
    } else {
      var rest := ws[1..];
      WordsTail(ws);
      var tail := JoinSpace(rest);
      SplitJoin(rest);
      JoinSpaceStart(rest);
      SplitAfterWord(w, tail);
      JoinSpaceUnfold(ws);
      SplitFirst(ws);
    }
  }

  /** The first word and the rest of a list of words. */
  lemma WordsTail(ws: seq<string>)
    requires |ws| >= 1 && Words(ws)
    ensures |ws[0]| > 0 && NoSpace(ws[0]) && Words(ws[1..])
  {
  }

  /** One step of `JoinSpace`. */
  lemma JoinSpaceUnfold(ws: seq<string>)
    requires |ws| >= 2
    ensures JoinSpace(ws) == ws[0] + " " + JoinSpace(ws[1..])
  {
  }

  /** A word, one space and a text starting with a visible character split
      into the word followed by the text's pieces. */
  lemma SplitAfterWord(w: string, tail: string)
    requires NoSpace(w)
    requires |tail| > 0 && !IsSpace(tail[0])
    ensures SplitWs(w + " " + tail) == [w] + SplitWs(tail)
  {
    var s := w + " " + tail;
    AppendAssoc(w, " ", tail);
    WordLenOfWord(w, " " + tail);
    assert s[|w|..] == " " + tail;
    assert s[..|w|] == w;
    TrimStartAfterSpace(" ", tail);
    SplitWsStep(s);
  }

  /** The first word of `w + t` is `w` when `t` starts with whitespace. */
  lemma {:induction false} WordLenOfWord(w: string, t: string)
    requires NoSpace(w)
    requires |t| == 0 || IsSpace(t[0])
    ensures WordLen(w + t) == |w|
    decreases |w|
  {
    if |w| > 0 {
      assert (w + t)[1..] == w[1..] + t;
      WordLenOfWord(w[1..], t);
    } else {
      assert w + t == t;
    }
  }

  /** A join of non-empty whitespace-free words starts with a visible
      character. */
  lemma JoinSpaceStart(ws: seq<string>)
    requires |ws| >= 1
    requires Words(ws)
    ensures |JoinSpace(ws)| > 0 && !IsSpace(JoinSpace(ws)[0])
  {
    if |ws| > 1 {
      assert JoinSpace(ws)[0] == ws[0][0];
    }
  }

  /** `s.replace(/\s+/g, ' ')`: every maximal whitespace run becomes one
      ordinary space. */
  function Collapse(s: string): (r: string)
    ensures SingleSpaced(r)
    ensures |r| == 0 <==> |s| == 0
    ensures |s| > 0 ==> (IsSpace(r[0]) <==> IsSpace(s[0]))
    ensures |s| > 0 ==> (IsSpace(r[|r| - 1]) <==> IsSpace(s[|s| - 1]))
    decreases |s|
  {
    if |s| == 0 then ""
    else if IsSpace(s[0]) then
      var t := TrimStart(s);
      assert |s| > 0 && |t| > 0 ==> t[|t| - 1] == s[|s| - 1];
      SingleSpacedCons(' ', Collapse(t));
      [' '] + Collapse(t)
    else
      SingleSpacedCons(s[0], Collapse(s[1..]));
      [s[0]] + Collapse(s[1..])
  }

  /** Putting a character in front keeps a string single-spaced unless it is
      whitespace other than ' ' or comes before whitespace. */
  lemma SingleSpacedCons(c: char, r: string)
    requires SingleSpaced(r)
    requires IsSpace(c) ==> c == ' ' && (|r| == 0 || !IsSpace(r[0]))
    ensures SingleSpaced([c] + r)
  {
    var s := [c] + r;
    assert forall k :: 1 <= k < |s| ==> s[k] == r[k - 1];
  }

  /** Only whitespace is touched by `Collapse`: the visible characters are
      kept, all of them and in their original order. */
  lemma {:induction false} CollapseKeepsVisible(s: string)
    ensures Filter(Collapse(s), Visible) == Filter(s, Visible)
    decreases |s|
  {
    if |s| > 0 {
      if IsSpace(s[0]) {
        var t := TrimStart(s);
        var a := s[..|s| - |t|];
        assert s == a + t;
        CollapseKeepsVisible(t);
        FilterAppend(a, t, Visible);
        FilterNoneVisible(a);
        FilterAppend(" ", Collapse(t), Visible);
      } else {
        CollapseKeepsVisible(s[1..]);
      }
    }
  }

  /** Whitespace contributes nothing to the visible characters. */
  lemma {:induction false} FilterNoneVisible(a: string)
    requires AllSpace(a)
    ensures Filter(a, Visible) == ""
    decreases |a|
  {
    if |a| > 0 {
      FilterNoneVisible(a[1..]);
    }
  }

  /** Dropping leading whitespace removes no visible character. */
  lemma TrimStartKeepsVisible(s: string)
    ensures Filter(TrimStart(s), Visible) == Filter(s, Visible)
  {
    var t := TrimStart(s);
    var a := s[..|s| - |t|];
    assert s == a + t;
    FilterAppend(a, t, Visible);
    FilterNoneVisible(a);
  }

  /** Dropping trailing whitespace removes no visible character. */
  lemma TrimEndKeepsVisible(s: string)
    ensures Filter(TrimEnd(s), Visible) == Filter(s, Visible)
  {
    var r := TrimEnd(s);
    var b := s[|r|..];
    assert s == r + b;
    FilterAppend(r, b, Visible);
    FilterNoneVisible(b);
  }

  /** Trimming removes whitespace only. */
  lemma TrimKeepsVisible(s: string)
    ensures Filter(Trim(s), Visible) == Filter(s, Visible)
  {
    TrimStartKeepsVisible(s);
    TrimEndKeepsVisible(TrimStart(s));
  }

  /** Every whitespace character is an ordinary space and no two of them are
      adjacent. */
  predicate SingleSpaced(s: string) {
    && (forall k :: 0 <= k < |s| && IsSpace(s[k]) ==> s[k] == ' ')
    && (forall k :: 0 <= k < |s| - 1 ==> !(IsSpace(s[k]) && IsSpace(s[k + 1])))
  }

  /** Dropping the first character keeps a string single-spaced. */
  lemma SingleSpacedTail(s: string)
    requires |s| > 0 && SingleSpaced(s)
    ensures SingleSpaced(s[1..])
    ensures IsSpace(s[0]) ==> s[0] == ' ' && (|s| == 1 || !IsSpace(s[1]))
  {
    var t := s[1..];
    assert forall k :: 0 <= k < |t| ==> t[k] == s[k + 1];
  }

  /** A single space in front of a visible character is all `TrimStart`
      removes. */
  lemma TrimStartOneSpace(s: string)
    requires |s| > 0 && IsSpace(s[0]) && (|s| == 1 || !IsSpace(s[1]))
    ensures TrimStart(s) == s[1..]
  {
    var t := s[1..];
    assert s[..1] + t == s;
    TrimStartAfterSpace(s[..1], t);
  }

  /** A single-spaced string is a fixed point of `Collapse`. */
  lemma {:induction false} CollapseFixed(s: string)
    requires SingleSpaced(s)
    ensures Collapse(s) == s
    decreases |s|
  {
    if |s| > 0 {
      var t := s[1..];
      SingleSpacedTail(s);
      CollapseFixed(t);
      assert s == [s[0]] + t;
      if IsSpace(s[0]) {
        TrimStartOneSpace(s);
        assert Collapse(s) == [' '] + Collapse(t);
      } else {
        assert Collapse(s) == [s[0]] + Collapse(t);
      }
    }
  }

  /** Splitting on whitespace and joining with single spaces is the same as
      collapsing every whitespace run into a single space. */
  lemma {:induction false} JoinSplitIsCollapse(s: string)
    ensures JoinSpace(SplitWs(s)) == Collapse(s)
    decreases |s|
  {
    var n := WordLen(s);
    var w, u := s[..n], s[n..];
    assert s == w + u;
    CollapseWord(w, u);
    if n < |s| {
      SplitWsStep(s);
      CollapseSpaceHead(u);
      var rest := TrimStart(u);
      JoinSplitIsCollapse(rest);
      JoinSpaceCons(w, SplitWs(rest));
    } else {
      assert u == "";
      SplitWsWhole(s);
    }
  }

  /** `SplitWs` on a string with whitespace: the first word, then the pieces
      after the whitespace run. */
  lemma SplitWsStep(s: string)
    requires WordLen(s) < |s|
    ensures SplitWs(s) == [s[..WordLen(s)]] + SplitWs(TrimStart(s[WordLen(s)..]))
  {
  }

  /** `SplitWs` on a string without whitespace is that one string. */
  lemma SplitWsWhole(s: string)
    requires WordLen(s) == |s|
    ensures SplitWs(s) == [s]
  {
  }

  /** `Collapse` turns a leading whitespace run into one space. */
  lemma CollapseSpaceHead(s: string)
    requires |s| > 0 && IsSpace(s[0])
    ensures |TrimStart(s)| < |s|
    ensures Collapse(s) == " " + Collapse(TrimStart(s))
  {
  }

  /** Joining a word in front of a non-empty list puts one space after it. */
  lemma JoinSpaceCons(w: string, ws: seq<string>)
    requires |ws| >= 1
    ensures JoinSpace([w] + ws) == w + (" " + JoinSpace(ws))
  {
    assert ([w] + ws)[1..] == ws;
    AppendAssoc(w, " ", JoinSpace(ws));
  }

  /** `Collapse` keeps a visible first character. */
  lemma CollapseVisibleHead(s: string)
    requires |s| > 0 && !IsSpace(s[0])
    ensures Collapse(s) == [s[0]] + Collapse(s[1..])
  {
  }

  /** `Collapse` passes a whitespace-free prefix through unchanged. */
  lemma {:induction false} CollapseWord(w: string, t: string)
    requires NoSpace(w)
    ensures Collapse(w + t) == w + Collapse(t)
    decreases |w|
  {
    if |w| > 0 {
      var s := w + t;
      var w' := w[1..];
      assert s[1..] == w' + t;
      assert NoSpace(w');
      CollapseVisibleHead(s);
      CollapseWord(w', t);
      assert w == [w[0]] + w';
      AppendAssoc([w[0]], w', Collapse(t));
    } else {
      assert w + t == t;
    }
  }

  /** `toLowerCase()` on one character, exact for every character that can
      end up in `[a-z0-9@.]`: ASCII capitals and the KELVIN SIGN (U+212A),
      whose lower case is `k`. Other characters are kept; their real lower
      case lies outside `[a-z0-9@.]` either way. */
  function LowerChar(c: char): char {
    if 'A' <= c <= 'Z' then (c as int + 32) as char
    else if c == '\U{212A}' then 'k'
    else c
  }

  /** An ASCII capital letter. */
  predicate IsCapital(c: char) {
    'A' <= c <= 'Z'
  }

  /** `s.toLowerCase()`, exact on the characters described at `LowerChar`:
      no capital is left, a capital becomes the same letter in lower case,
      and only capitals and the KELVIN SIGN change. */
  function Lower(s: string): (r: string)
    ensures |r| == |s|
    ensures forall k :: 0 <= k < |r| ==> !IsCapital(r[k])
    ensures forall k :: 0 <= k < |s| ==> (r[k] == s[k] <==> !IsCapital(s[k]) && s[k] != '\U{212A}')
    ensures forall k :: 0 <= k < |s| && IsCapital(s[k]) ==>
              'a' <= r[k] <= 'z' && r[k] as int - 'a' as int == s[k] as int - 'A' as int
  {
    seq(|s|, k requires 0 <= k < |s| => LowerChar(s[k]))
  }

  /** Lower-casing twice is lower-casing once. */
  lemma LowerTwice(s: string)
    ensures Lower(Lower(s)) == Lower(s)
  {
    var r := Lower(s);
    forall k | 0 <= k < |r|
      ensures Lower(r)[k] == r[k]
    {
      assert !IsCapital(r[k]) && r[k] != '\U{212A}';
    }
  }

  predicate IsDigit(c: char) {
    '0' <= c <= '9'
  }

  predicate AllDigits(s: string) {
    forall k :: 0 <= k < |s| ==> IsDigit(s[k])
  }

  /** The decimal digit for `d`. */
  function DigitChar(d: nat): (c: char)
    requires d < 10
    ensures IsDigit(c) && c as int - '0' as int == d
  {
    ('0' as int + d) as char
  }

  /** The number written by a string of decimal digits. */
  function DigitsValue(s: string): nat
    requires AllDigits(s)
  {
    if |s| == 0 then 0
    else DigitsValue(s[..|s| - 1]) * 10 + (s[|s| - 1] as int - '0' as int)
  }

  /** `String(n)` for a non-negative integer: its shortest decimal form. */
  function NatToString(n: nat): (r: string)
    ensures |r| >= 1 && AllDigits(r)
    ensures DigitsValue(r) == n
    ensures |r| > 1 ==> r[0] != '0'
  {
    if n < 10 then [DigitChar(n)]
    else
      var r := NatToString(n / 10) + [DigitChar(n % 10)];
      assert r[..|r| - 1] == NatToString(n / 10);
      r
  }

  /** `String(n)` has one more digit than `String(n / 10)` for `n >= 10`. */
  lemma NatToStringStep(n: nat)
    requires n >= 10
    ensures |NatToString(n)| == |NatToString(n / 10)| + 1
  {
  }

  /** The length of `String(n)` for one-, two- and four-digit numbers. */
  lemma NatToStringLength(n: nat)
    ensures n < 10 ==> |NatToString(n)| == 1
    ensures 10 <= n < 100 ==> |NatToString(n)| == 2
    ensures 1000 <= n < 10000 ==> |NatToString(n)| == 4
  {
    if 10 <= n < 100 {
      NatToStringStep(n);
    }
    if 1000 <= n < 10000 {
      NatToStringStep(n);
      NatToStringStep(n / 10);
      NatToStringStep(n / 10 / 10);
      assert 1 <= n / 10 / 10 / 10 < 10;
    }
  }
}
