/** Whitespace handling of the backend: Python's `str.strip()`, the
    `re.sub(r'\s+', ' ', text)` collapse, and their composition, the
    normaliser of `split_text_into_chunks`. The scans work on positions of
    the string rather than on its suffixes. */
module Whitespace {

  /** The characters for which Python's `str.isspace()` holds; a `\s` in a
      `str` regular expression matches exactly these, and `str.strip()` with no
      argument removes exactly these. */
  predicate IsSpace(c: char) {
    var n := c as int;
    (9 <= n <= 13) || (28 <= n <= 32) || n == 0x85 || n == 0xA0 || n == 0x1680
    || (0x2000 <= n <= 0x200A) || n == 0x2028 || n == 0x2029 || n == 0x202F
    || n == 0x205F || n == 0x3000
  }

  /** The string is whitespace only (the empty string included). */
  predicate IsBlank(s: string) {
    forall i :: 0 <= i < |s| ==> IsSpace(s[i])
  }

  /** Neither end of the string is whitespace. */
  predicate NoEdgeSpace(s: string) {
    s == [] || (!IsSpace(s[0]) && !IsSpace(s[|s| - 1]))
  }

  /** Every whitespace character is a plain space, and no two whitespace
      characters are adjacent. */
  predicate SingleSpaced(s: string) {
    && (forall i :: 0 <= i < |s| && IsSpace(s[i]) ==> s[i] == ' ')
    && (forall i :: 0 <= i < |s| - 1 ==> !IsSpace(s[i]) || !IsSpace(s[i + 1]))
  }

  /** The non-whitespace characters of `s`, in order. */
  function NonSpace(s: string): string {
    if s == [] then [] else (if IsSpace(s[0]) then [] else [s[0]]) + NonSpace(s[1..])
  }

  /** The first position at or after `i` that does not hold whitespace, or
      `|s|` when there is none: where `lstrip` and a `\s+` run stop
      (`SkipSpaceSkipsBlank` says that only whitespace is passed over). */
  function SkipSpace(s: string, i: nat): (k: nat)
    requires i <= |s|
    ensures i <= k <= |s|
    ensures k == |s| || !IsSpace(s[k])
    decreases |s| - i
  {
    if i < |s| && IsSpace(s[i]) then SkipSpace(s, i + 1) else i
  }

  /** The end of `s[i..j]` once its trailing whitespace is removed: where
      `rstrip` stops (`TrimEndSkipsBlank`). */
  function TrimEnd(s: string, i: nat, j: nat): (k: nat)
    requires i <= j <= |s|
    ensures i <= k <= j
    ensures k == i || !IsSpace(s[k - 1])
    decreases j
  {
    if j > i && IsSpace(s[j - 1]) then TrimEnd(s, i, j - 1) else j
  }

  /** `str.strip()`: the leading scan finds the start, the trailing scan the
      end. */
  function Strip(s: string): (r: string)
    ensures NoEdgeSpace(r)
  {
    var i := SkipSpace(s, 0);
    var j := TrimEnd(s, i, |s|);
    assert i < j ==> s[i..j][0] == s[i] && s[i..j][j - i - 1] == s[j - 1];
    s[i..j]
  }

  /** `re.sub(r'\s+', ' ', s[i..])`: every maximal run of whitespace becomes
      one plain space (`CollapseSingleSpaced`). */
  function CollapseFrom(s: string, i: nat): (r: string)
    requires i <= |s|
    ensures r == [] <==> i == |s|
    ensures r != [] ==> (IsSpace(r[0]) <==> IsSpace(s[i]))
    decreases |s| - i
  {
    if i == |s| then []
    else if IsSpace(s[i]) then [' '] + CollapseFrom(s, SkipSpace(s, i + 1))
    else [s[i]] + CollapseFrom(s, i + 1)
  }

  /** `re.sub(r'\s+', ' ', s)`. */
  function Collapse(s: string): string {
    CollapseFrom(s, 0)
  }

  /** The cleaning step of `split_text_into_chunks`:
      `re.sub(r'\s+', ' ', text).strip()`. */
  function Normalize(s: string): string {
    Strip(Collapse(s))
  }

  lemma {:induction false} SkipSpaceSkipsBlank(s: string, i: nat)
    requires i <= |s|
    ensures forall m :: i <= m < SkipSpace(s, i) ==> IsSpace(s[m])
    decreases |s| - i
  {
    if i < |s| && IsSpace(s[i]) {
      SkipSpaceSkipsBlank(s, i + 1);
    }
  }

  lemma {:induction false} TrimEndSkipsBlank(s: string, i: nat, j: nat)
    requires i <= j <= |s|
    ensures forall m :: TrimEnd(s, i, j) <= m < j ==> IsSpace(s[m])
    decreases j
  {
    if j > i && IsSpace(s[j - 1]) {
      TrimEndSkipsBlank(s, i, j - 1);
    }
  }

  lemma {:induction false} NonSpaceAppend(a: string, b: string)
    ensures NonSpace(a + b) == NonSpace(a) + NonSpace(b)
    decreases |a|
  {
    if a == [] {
      assert a + b == b;
    } else {
      assert (a + b)[1..] == a[1..] + b;
      NonSpaceAppend(a[1..], b);
    }
  }

  lemma {:induction false} NonSpaceEmptyIffBlank(s: string)
    ensures NonSpace(s) == [] <==> IsBlank(s)
    decreases |s|
  {
    if s != [] {
      NonSpaceEmptyIffBlank(s[1..]);
      if IsBlank(s[1..]) && IsSpace(s[0]) {
        forall i | 0 <= i < |s| ensures IsSpace(s[i]) {
          if i > 0 { assert s[i] == s[1..][i - 1]; }
        }
      }
      if IsBlank(s) {
        forall i | 0 <= i < |s| - 1 ensures IsSpace(s[1..][i]) {
          assert s[1..][i] == s[i + 1];
        }
      }
    }
  }

  lemma BlankAppend(a: string, b: string)
    ensures IsBlank(a + b) <==> IsBlank(a) && IsBlank(b)
  {
    if IsBlank(a + b) {
      forall i | 0 <= i < |a| ensures IsSpace(a[i]) {
        assert a[i] == (a + b)[i];
      }
      forall i | 0 <= i < |b| ensures IsSpace(b[i]) {
        assert b[i] == (a + b)[|a| + i];
      }
    }
  }

  /** A stretch of whitespace contributes no non-whitespace character. */
  lemma NonSpaceOfBlankRange(s: string, i: nat, j: nat)
    requires i <= j <= |s|
    requires forall m :: i <= m < j ==> IsSpace(s[m])
    ensures NonSpace(s[i..j]) == []
  {
    var t := s[i..j];
    forall m | 0 <= m < |t| ensures IsSpace(t[m]) {
      assert t[m] == s[i + m];
    }
    NonSpaceEmptyIffBlank(t);
  }

  /** Removing a whitespace-only prefix and suffix keeps the non-whitespace
      characters. */
  lemma NonSpaceOfMiddle(s: string, i: nat, j: nat)
    requires i <= j <= |s|
    requires NonSpace(s[..i]) == [] && NonSpace(s[j..]) == []
    ensures NonSpace(s[i..j]) == NonSpace(s)
  {
    assert s == s[..i] + s[i..j] + s[j..];
    NonSpaceAppend(s[..i] + s[i..j], s[j..]);
    NonSpaceAppend(s[..i], s[i..j]);
  }

  /** `strip()` removes exactly a whitespace-only prefix and suffix. */
  lemma StripIsMiddle(s: string) returns (i: nat, j: nat)
    ensures i <= j <= |s| && Strip(s) == s[i..j]
    ensures IsBlank(s[..i]) && IsBlank(s[j..])
  {
    i := SkipSpace(s, 0);
    j := TrimEnd(s, i, |s|);
    SkipSpaceSkipsBlank(s, 0);
    TrimEndSkipsBlank(s, i, |s|);
    forall m | 0 <= m < i ensures IsSpace(s[..i][m]) {
      assert s[..i][m] == s[m];
    }
    forall m | 0 <= m < |s| - j ensures IsSpace(s[j..][m]) {
      assert s[j..][m] == s[j + m];
    }
  }

  lemma StripKeepsNonSpace(s: string)
    ensures NonSpace(Strip(s)) == NonSpace(s)
  {
    var i, j := StripIsMiddle(s);
    NonSpaceEmptyIffBlank(s[..i]);
    NonSpaceEmptyIffBlank(s[j..]);
    NonSpaceOfMiddle(s, i, j);
  }

  /** `not text.strip()` holds exactly for whitespace-only text. */
  lemma StripEmptyIffBlank(s: string)
    ensures Strip(s) == [] <==> IsBlank(s)
  {
    StripKeepsNonSpace(s);
    NonSpaceEmptyIffBlank(s);
    NonSpaceEmptyIffBlank(Strip(s));
  }

  lemma NonSpaceCons(c: char, t: string)
    ensures NonSpace([c] + t) == (if IsSpace(c) then [] else [c]) + NonSpace(t)
  {
    assert ([c] + t)[1..] == t;
  }

  /** Skipping a run of whitespace keeps the non-whitespace characters. */
  lemma NonSpaceSkipRun(s: string, i: nat, k: nat)
    requires i <= k <= |s|
    requires forall m :: i <= m < k ==> IsSpace(s[m])
    ensures NonSpace(s[i..]) == NonSpace(s[k..])
  {
    NonSpaceOfBlankRange(s, i, k);
    assert s[i..] == s[i..k] + s[k..];
    NonSpaceAppend(s[i..k], s[k..]);
  }

  lemma {:induction false} CollapseKeepsNonSpace(s: string, i: nat)
    requires i <= |s|
    ensures NonSpace(CollapseFrom(s, i)) == NonSpace(s[i..])
    decreases |s| - i
  {
    if i == |s| {
      assert s[i..] == [];
    } else if IsSpace(s[i]) {
      var k := SkipSpace(s, i + 1);
      CollapseKeepsNonSpace(s, k);
      NonSpaceCons(' ', CollapseFrom(s, k));
      SkipSpaceSkipsBlank(s, i + 1);
      NonSpaceSkipRun(s, i, k);
    } else {
      CollapseKeepsNonSpace(s, i + 1);
      NonSpaceCons(s[i], CollapseFrom(s, i + 1));
      assert s[i..] == [s[i]] + s[i + 1..];
      NonSpaceCons(s[i], s[i + 1..]);
    }
  }

  /** After the collapse, every whitespace character is a single plain
      space. */
  lemma {:induction false} CollapseSingleSpaced(s: string, i: nat)
    requires i <= |s|
    ensures SingleSpaced(CollapseFrom(s, i))
    decreases |s| - i
  {
    if i < |s| {
      var t := if IsSpace(s[i]) then SkipSpace(s, i + 1) else i + 1;
      CollapseSingleSpaced(s, t);
      var c := CollapseFrom(s, t);
      var r := CollapseFrom(s, i);
      assert r == [if IsSpace(s[i]) then ' ' else s[i]] + c;
      assert IsSpace(s[i]) && c != [] ==> !IsSpace(c[0]);
      forall m | 0 <= m < |r| - 1 ensures !IsSpace(r[m]) || !IsSpace(r[m + 1]) {
        assert r[m + 1] == c[m];
        if m > 0 {
          assert r[m] == c[m - 1];
        }
      }
      forall m | 0 <= m < |r| && IsSpace(r[m]) ensures r[m] == ' ' {
        if m > 0 {
          assert r[m] == c[m - 1];
        }
      }
    }
  }

  lemma SingleSpacedSlice(s: string, i: nat, j: nat)
    requires i <= j <= |s| && SingleSpaced(s)
    ensures SingleSpaced(s[i..j])
  {
    var t := s[i..j];
    forall k | 0 <= k < |t| - 1 ensures !IsSpace(t[k]) || !IsSpace(t[k + 1]) {
      assert t[k] == s[i + k] && t[k + 1] == s[i + k + 1];
    }
  }

  /** What the normaliser produces: nothing at either edge, single spaces
      only, and the same non-whitespace characters in the same order. */
  lemma NormalizeShape(s: string)
    ensures NoEdgeSpace(Normalize(s))
    ensures SingleSpaced(Normalize(s))
    ensures NonSpace(Normalize(s)) == NonSpace(s)
  {
    var c := Collapse(s);
    CollapseSingleSpaced(s, 0);
    CollapseKeepsNonSpace(s, 0);
    assert s[0..] == s;
    var i, j := StripIsMiddle(c);
    SingleSpacedSlice(c, i, j);
    StripKeepsNonSpace(c);
  }

  /** A single-spaced string has no run of whitespace left to collapse. */
  lemma {:induction false} CollapseFixedPoint(s: string, i: nat)
    requires i <= |s| && SingleSpaced(s)
    ensures CollapseFrom(s, i) == s[i..]
    decreases |s| - i
  {
    if i < |s| {
      CollapseFixedPoint(s, i + 1);
      if IsSpace(s[i]) {
        assert s[i] == ' ';
        assert i + 1 == |s| || !IsSpace(s[i + 1]);
        assert SkipSpace(s, i + 1) == i + 1;
      }
      assert s[i..] == [s[i]] + s[i + 1..];
    } else {
      assert s[i..] == [];
    }
  }

  /** A string with no whitespace at either end is its own `strip()`. */
  lemma StripFixedPoint(s: string)
    requires NoEdgeSpace(s)
    ensures Strip(s) == s
  {
    if s != [] {
      assert SkipSpace(s, 0) == 0;
      assert TrimEnd(s, 0, |s|) == |s|;
    }
    assert s[0..|s|] == s;
  }

  lemma NormalizeIdempotent(s: string)
    ensures Normalize(Normalize(s)) == Normalize(s)
  {
    var t := Normalize(s);
    NormalizeShape(s);
    CollapseFixedPoint(t, 0);
    assert t[0..] == t;
    StripFixedPoint(t);
  }

  /** The normaliser yields the empty string exactly on whitespace-only
      input. */
  lemma NormalizeEmptyIffBlank(s: string)
    ensures Normalize(s) == [] <==> IsBlank(s)
  {
    NormalizeShape(s);
    NonSpaceEmptyIffBlank(s);
    NonSpaceEmptyIffBlank(Normalize(s));
  }

  /** The first position at or after `i` that holds whitespace, or `|s|`
      when there is none: the end of the word starting at `i`. */
  function SkipWord(s: string, i: nat): (k: nat)
    requires i <= |s|
    ensures i <= k <= |s|
    ensures k == |s| || IsSpace(s[k])
    decreases |s| - i
  {
    if i < |s| && !IsSpace(s[i]) then SkipWord(s, i + 1) else i
  }

  /** The run of non-whitespace characters that starts at `k`; it ends at
      `SkipWord(s, k)`. */
  function WordAt(s: string, k: nat): string
    requires k <= |s|
    decreases |s| - k
  {
    if k < |s| && !IsSpace(s[k]) then [s[k]] + WordAt(s, k + 1) else []
  }

  /** The maximal non-whitespace runs of `s[i..]`, in order: Python's
      `str.split()` with no separator. */
  function WordsFrom(s: string, i: nat): seq<string>
    requires i <= |s|
    decreases |s| - i
  {
    var k := SkipSpace(s, i);
    if k == |s| then []
    else
      [WordAt(s, k)] + WordsFrom(s, SkipWord(s, k))
  }

  /** `s.split()`. */
  function Words(s: string): seq<string> {
    WordsFrom(s, 0)
  }

  /** `' '.join(ws)`. */
  function JoinSpaced(ws: seq<string>): string {
    if ws == [] then []
    else if |ws| == 1 then ws[0]
    else ws[0] + " " + JoinSpaced(ws[1..])
  }

  lemma {:induction false} SkipWordSkipsWord(s: string, i: nat)
    requires i <= |s|
    ensures forall m :: i <= m < SkipWord(s, i) ==> !IsSpace(s[m])
    decreases |s| - i
  {
    if i < |s| && !IsSpace(s[i]) {
      SkipWordSkipsWord(s, i + 1);
    }
  }

  /** A scan that starts on whitespace stops where the scan from the next
      position stops. */
  lemma SkipSpaceAgain(s: string, i: nat)
    requires i <= |s|
    ensures SkipSpace(s, SkipSpace(s, i)) == SkipSpace(s, i)
  {
  }

  lemma WordsFromSkip(s: string, i: nat)
    requires i <= |s|
    ensures WordsFrom(s, i) == WordsFrom(s, SkipSpace(s, i))
  {
    SkipSpaceAgain(s, i);
  }

  /** A word of `str.split()`: non-empty, with no whitespace in it. */
  predicate IsWord(w: string) {
    w != [] && forall i :: 0 <= i < |w| ==> !IsSpace(w[i])
  }

  lemma {:induction false} WordAtIsWord(s: string, k: nat)
    requires k <= |s|
    ensures forall m :: 0 <= m < |WordAt(s, k)| ==> !IsSpace(WordAt(s, k)[m])
    ensures WordAt(s, k) == [] <==> k == |s| || IsSpace(s[k])
    decreases |s| - k
  {
    if k < |s| && !IsSpace(s[k]) {
      WordAtIsWord(s, k + 1);
      var w := WordAt(s, k);
      forall m | 0 < m < |w| ensures w[m] == WordAt(s, k + 1)[m - 1] {
      }
    }
  }

  lemma {:induction false} WordsAreWords(s: string, i: nat)
    requires i <= |s|
    ensures forall w :: w in WordsFrom(s, i) ==> IsWord(w)
    decreases |s| - i
  {
    var k := SkipSpace(s, i);
    if k < |s| {
      WordsAreWords(s, SkipWord(s, k));
      WordAtIsWord(s, k);
    }
  }

  /** Joining words with single spaces leaves no whitespace at either end,
      and is empty exactly when there are no words. */
  lemma {:induction false} JoinSpacedEdges(ws: seq<string>)
    requires forall w :: w in ws ==> IsWord(w)
    ensures NoEdgeSpace(JoinSpaced(ws))
    ensures JoinSpaced(ws) == [] <==> ws == []
    decreases |ws|
  {
    if ws != [] {
      assert ws[0] in ws;
      if |ws| > 1 {
        var rest := ws[1..];
        assert forall w :: w in rest ==> w in ws;
        JoinSpacedEdges(rest);
        var r := JoinSpaced(rest);
        var t := ws[0] + " " + r;
        assert t[0] == ws[0][0];
        assert t[|t| - 1] == r[|r| - 1];
      }
    }
  }

  lemma AppendAssoc(a: string, b: string, c: string)
    ensures a + (b + c) == (a + b) + c
  {
  }

  /** A non-whitespace run is copied as it is by the collapse. */
  lemma {:induction false} CollapseWord(s: string, k: nat)
    requires k <= |s|
    ensures CollapseFrom(s, k) == WordAt(s, k) + CollapseFrom(s, SkipWord(s, k))
    decreases |s| - k
  {
    if k < |s| && !IsSpace(s[k]) {
      CollapseWord(s, k + 1);
      AppendAssoc([s[k]], WordAt(s, k + 1), CollapseFrom(s, SkipWord(s, k)));
    }
  }

  lemma WordsFromWordStart(s: string, k: nat)
    requires k < |s| && !IsSpace(s[k])
    ensures WordsFrom(s, k) == [WordAt(s, k)] + WordsFrom(s, SkipWord(s, k))
  {
  }

  /** A whitespace run becomes one space and separates the words. */
  lemma AfterWord(s: string, j: nat)
    requires j < |s| && IsSpace(s[j])
    ensures CollapseFrom(s, j) == " " + CollapseFrom(s, SkipSpace(s, j))
    ensures WordsFrom(s, j) == WordsFrom(s, SkipSpace(s, j))
  {
    assert SkipSpace(s, j) == SkipSpace(s, j + 1);
    WordsFromSkip(s, j);
  }

  lemma JoinSpacedCons(w: string, ws: seq<string>)
    requires ws != []
    ensures JoinSpaced([w] + ws) == w + " " + JoinSpaced(ws)
  {
    assert ([w] + ws)[1..] == ws;
  }

  /** From the start of a word, the collapse is the words joined by single
      spaces, followed by one space when the text ends in whitespace. */
  lemma {:induction false} CollapseFromWordStart(s: string, k: nat)
    requires k <= |s| && (k == |s| || !IsSpace(s[k]))
    ensures CollapseFrom(s, k) == JoinSpaced(WordsFrom(s, k)) + Tail(s, k)
    decreases |s| - k
  {
    if k < |s| {
      var j := SkipWord(s, k);
      CollapseWord(s, k);
      WordsFromWordStart(s, k);
      if j == |s| {
        LastWord(s, k);
      } else {
        var k2 := SkipSpace(s, j);
        AfterWord(s, j);
        CollapseFromWordStart(s, k2);
        if k2 == |s| {
          SkipSpaceSkipsBlank(s, j);
          assert Tail(s, k) == " ";
        } else {
          NextWord(s, k, j, k2);
        }
      }
    }
  }

  lemma LastWord(s: string, k: nat)
    requires k < |s| && SkipWord(s, k) == |s|
    ensures Tail(s, k) == []
  {
    SkipWordSkipsWord(s, k);
  }

  lemma NextWord(s: string, k: nat, j: nat, k2: nat)
    requires k < j < k2 < |s|
    ensures Tail(s, k) == Tail(s, k2)
    ensures WordsFrom(s, k2) != [] ==>
      JoinSpaced([WordAt(s, k)] + WordsFrom(s, k2)) + Tail(s, k)
      == WordAt(s, k) + (" " + (JoinSpaced(WordsFrom(s, k2)) + Tail(s, k2)))
  {
    if WordsFrom(s, k2) != [] {
      JoinSpacedCons(WordAt(s, k), WordsFrom(s, k2));
    }
  }

  /** The single space a trailing whitespace run leaves after the last word
      from position `k` on. */
  function Tail(s: string, k: nat): string
    requires k <= |s|
  {
    if k < |s| && IsSpace(s[|s| - 1]) then " " else []
  }

  /** `strip()` of a string padded with whitespace on both sides gives back
      the middle, when the middle has no whitespace at its edges. */
  lemma StripPadded(a: string, m: string, b: string)
    requires IsBlank(a) && IsBlank(b) && NoEdgeSpace(m)
    ensures Strip(a + m + b) == m
  {
    var x := a + m + b;
    if m == [] {
      assert forall i :: 0 <= i < |x| ==> x[i] == (if i < |a| then a[i] else b[i - |a|]);
      StripEmptyIffBlank(x);
    } else {
      SkipSpaceTo(x, 0, |a|);
      TrimEndTo(x, |a|, |x|, |a| + |m|);
      assert x[|a|..|a| + |m|] == m;
    }
  }

  lemma {:induction false} SkipSpaceTo(s: string, i: nat, k: nat)
    requires i <= k <= |s| && (k == |s| || !IsSpace(s[k]))
    requires forall m :: i <= m < k ==> IsSpace(s[m])
    ensures SkipSpace(s, i) == k
    decreases k - i
  {
    if i < k {
      SkipSpaceTo(s, i + 1, k);
    }
  }

  lemma {:induction false} TrimEndTo(s: string, i: nat, j: nat, k: nat)
    requires i <= k <= j <= |s| && (k == i || !IsSpace(s[k - 1]))
    requires forall m :: k <= m < j ==> IsSpace(s[m])
    ensures TrimEnd(s, i, j) == k
    decreases j - k
  {
    if k < j {
      TrimEndTo(s, i, j - 1, k);
    }
  }

  /** The single space a leading whitespace run leaves before the first
      word. */
  function Lead(s: string): string {
    if s != [] && IsSpace(s[0]) then " " else []
  }

  /** The collapse is the joined words, padded by at most one space on
      each side. */
  lemma CollapseIsPaddedWords(s: string)
    ensures Collapse(s) == Lead(s) + JoinSpaced(Words(s)) + Tail(s, SkipSpace(s, 0))
  {
    var k := SkipSpace(s, 0);
    if s != [] && IsSpace(s[0]) {
      assert SkipSpace(s, 1) == k;
    }
    CollapseFromWordStart(s, k);
    WordsFromSkip(s, 0);
  }

  /** The normaliser is `' '.join(s.split())`: the words of the text, in
      order, each separated from the next by exactly one space. */
  lemma NormalizeIsJoinedWords(s: string)
    ensures Normalize(s) == JoinSpaced(Words(s))
  {
    CollapseIsPaddedWords(s);
    WordsAreWords(s, 0);
    JoinSpacedEdges(Words(s));
    StripPadded(Lead(s), JoinSpaced(Words(s)), Tail(s, SkipSpace(s, 0)));
  }
}
