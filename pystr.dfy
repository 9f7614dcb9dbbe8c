/**
 * The Python `str` builtins that the summarizer relies on, defined on
 * `seq<char>`: `isspace`, `strip`, `split()` (on runs of whitespace),
 * `find`, `split(sep)` and `sep.join(parts)`.
 */
module PyStr {
  import opened Wrappers

  /** `c.isspace()` in Python 3: the characters of Unicode bidirectional
      class WS, B or S, or of general category Zs. */
  predicate IsSpace(c: char) {
    || c == ' '
    || ('\t' <= c <= '\r')
    || ('\U{1c}' <= c <= '\U{1f}')
    || c == '\U{85}' || c == '\U{a0}' || c == '\U{1680}'
    || ('\U{2000}' <= c <= '\U{200a}')
    || c == '\U{2028}' || c == '\U{2029}' || c == '\U{202f}'
    || c == '\U{205f}' || c == '\U{3000}'
  }

  predicate HasNoSpace(s: string) {
    forall k :: 0 <= k < |s| ==> !IsSpace(s[k])
  }

  /** Every character of `s` is whitespace. */
  predicate IsBlank(s: string) {
    forall k :: 0 <= k < |s| ==> IsSpace(s[k])
  }

  lemma NotBlank(s: string, k: nat)
    requires k < |s| && !IsSpace(s[k])
    ensures !IsBlank(s)
  {
  }

  /** A string with no whitespace at either end, as `strip()` leaves it. */
  predicate IsStripped(s: string) {
    s == [] || (!IsSpace(s[0]) && !IsSpace(s[|s| - 1]))
  }

  // ---------------------------------------------------------------------------
  // strip()

  /** `s.lstrip()`: the longest suffix of `s` that does not start with whitespace. */
  function StripLeft(s: string): (r: string)
    ensures |r| <= |s| && r == s[|s| - |r|..]
    ensures IsBlank(s[..|s| - |r|])
    ensures r == [] || !IsSpace(r[0])
    decreases |s|
  {
    if s != [] && IsSpace(s[0]) then
      var r := StripLeft(s[1..]);
      StripLeftStep(s, r);
      r
    else s
  }

  lemma BlankCons(c: char, t: string)
    requires IsSpace(c) && IsBlank(t)
    ensures IsBlank([c] + t)
  {
    assert forall k :: 0 < k < |t| + 1 ==> ([c] + t)[k] == t[k - 1];
  }

  lemma StripLeftStep(s: string, r: string)
    requires s != [] && IsSpace(s[0])
    requires |r| <= |s| - 1 && r == s[1..][|s| - 1 - |r|..]
    requires IsBlank(s[1..][..|s| - 1 - |r|])
    ensures r == s[|s| - |r|..] && IsBlank(s[..|s| - |r|])
  {
    var t := s[1..][..|s| - 1 - |r|];
    BlankCons(s[0], t);
    assert s[..|s| - |r|] == [s[0]] + t;
  }

  lemma BlankSnoc(t: string, c: char)
    requires IsSpace(c) && IsBlank(t)
    ensures IsBlank(t + [c])
  {
    assert forall k :: 0 <= k < |t| ==> (t + [c])[k] == t[k];
  }

  lemma StripRightStep(s: string, r: string)
    requires s != [] && IsSpace(s[|s| - 1])
    requires |r| <= |s| - 1 && r == s[..|s| - 1][..|r|]
    requires IsBlank(s[..|s| - 1][|r|..])
    ensures r == s[..|r|] && IsBlank(s[|r|..])
  {
    var t := s[..|s| - 1][|r|..];
    BlankSnoc(t, s[|s| - 1]);
    assert s[|r|..] == t + [s[|s| - 1]];
  }

  /** `s.rstrip()`: the longest prefix of `s` that does not end with whitespace. */
  function StripRight(s: string): (r: string)
    ensures |r| <= |s| && r == s[..|r|]
    ensures IsBlank(s[|r|..])
    ensures r == [] || !IsSpace(r[|r| - 1])
    decreases |s|
  {
    if s != [] && IsSpace(s[|s| - 1]) then
      var r := StripRight(s[..|s| - 1]);
      StripRightStep(s, r);
      r
    else s
  }

  /** `r` is `s` with the whitespace prefix of length `i` cut from its start
      and only whitespace cut from its end. */
  predicate IsCutOf(s: string, i: int, r: string) {
    && 0 <= i && i + |r| <= |s| && r == s[i..i + |r|]
    && IsBlank(s[..i]) && IsBlank(s[i + |r|..])
  }

  /** `s.strip()`: `s` with the whitespace at both of its ends removed. */
  function Strip(s: string): (r: string)
    ensures IsStripped(r)
    ensures exists i :: 0 <= i <= |s| && IsCutOf(s, i, r)
  {
    StripCut(s);
    StripRight(StripLeft(s))
  }

  lemma StripCut(s: string)
    ensures IsCutOf(s, |s| - |StripLeft(s)|, StripRight(StripLeft(s)))
  {
    CutOfParts(s, StripLeft(s), StripRight(StripLeft(s)));
  }

  /** A whitespace-prefixed suffix `l` of `s`, then a prefix `r` of `l`
      followed only by whitespace, is a cut of `s`. */
  lemma CutOfParts(s: string, l: string, r: string)
    requires |l| <= |s| && l == s[|s| - |l|..] && IsBlank(s[..|s| - |l|])
    requires |r| <= |l| && r == l[..|r|] && IsBlank(l[|r|..])
    ensures IsCutOf(s, |s| - |l|, r)
  {
    var i := |s| - |l|;
    assert r == s[i..i + |r|];
    assert l[|r|..] == s[i + |r|..];
  }

  /** Stripping leaves a stripped string unchanged, so `strip` is idempotent. */
  lemma StrippedIsFixed(s: string)
    requires IsStripped(s)
    ensures Strip(s) == s
  {
  }

  lemma StripIdempotent(s: string)
    ensures Strip(Strip(s)) == Strip(s)
  {
    StrippedIsFixed(Strip(s));
  }

  // ---------------------------------------------------------------------------
  // split() with no argument

  /** Length of the run of non-whitespace characters that starts `s`. */
  function WordLength(s: string): (n: nat)
    ensures n <= |s|
    ensures HasNoSpace(s[..n])
    ensures n == |s| || IsSpace(s[n])
    ensures s != [] && !IsSpace(s[0]) ==> n > 0
  {
    if s == [] || IsSpace(s[0]) then 0 else 1 + WordLength(s[1..])
  }

  /** `s.split()`: the maximal runs of non-whitespace characters of `s`,
      in order; leading, trailing and repeated whitespace yields no word. */
  function Words(s: string): (ws: seq<string>)
    ensures forall k :: 0 <= k < |ws| ==> ws[k] != [] && HasNoSpace(ws[k])
    decreases |s|
  {
    if s == [] then []
    else if IsSpace(s[0]) then Words(s[1..])
    else
      var n := WordLength(s);
      [s[..n]] + Words(s[n..])
  }

  /** The non-whitespace characters of `s`, in order. */
  function NonSpaces(s: string): (r: string)
    ensures |r| <= |s|
  {
    if s == [] then [] else (if IsSpace(s[0]) then [] else [s[0]]) + NonSpaces(s[1..])
  }

  function Concat(ws: seq<string>): (r: string) {
    if ws == [] then [] else ws[0] + Concat(ws[1..])
  }

  lemma {:induction false} NonSpacesAppend(a: string, b: string)
    ensures NonSpaces(a + b) == NonSpaces(a) + NonSpaces(b)
  {
    if a == [] {
      assert a + b == b;
    } else {
      assert (a + b)[0] == a[0];
      assert (a + b)[1..] == a[1..] + b;
      NonSpacesAppend(a[1..], b);
    }
  }

  lemma {:induction false} NonSpacesOfWord(s: string)
    requires HasNoSpace(s)
    ensures NonSpaces(s) == s
  {
    if s != [] {
      NonSpacesOfWord(s[1..]);
    }
  }

  /** The words of `s`, put back together, are exactly the non-whitespace
      characters of `s`: `split()` loses only whitespace. */
  lemma {:induction false} WordsKeepAllText(s: string)
    ensures Concat(Words(s)) == NonSpaces(s)
    decreases |s|
  {
    if s == [] {
    } else if IsSpace(s[0]) {
      WordsKeepAllText(s[1..]);
    } else {
      var n := WordLength(s);
      assert s == s[..n] + s[n..];
      NonSpacesAppend(s[..n], s[n..]);
      NonSpacesOfWord(s[..n]);
      WordsKeepAllText(s[n..]);
      assert Words(s)[1..] == Words(s[n..]);
    }
  }

  /** A string has no words exactly when it is all whitespace. */
  lemma NoWordsIffBlank(s: string)
    ensures Words(s) == [] <==> (forall k :: 0 <= k < |s| ==> IsSpace(s[k]))
  {
    WordsKeepAllText(s);
    if Words(s) == [] {
      forall k | 0 <= k < |s| ensures IsSpace(s[k]) {
        NonSpacesAt(s, k);
      }
    } else {
      BlankHasNoNonSpaces(s);
    }
  }

  lemma {:induction false} NonSpacesAt(s: string, k: nat)
    requires k < |s| && NonSpaces(s) == []
    ensures IsSpace(s[k])
  {
    if k > 0 {
      NonSpacesAt(s[1..], k - 1);
    }
  }

  lemma {:induction false} BlankHasNoNonSpaces(s: string)
    requires Words(s) != []
    ensures exists k :: 0 <= k < |s| && !IsSpace(s[k])
    decreases |s|
  {
    if IsSpace(s[0]) {
      BlankHasNoNonSpaces(s[1..]);
      var k :| 0 <= k < |s[1..]| && !IsSpace(s[1..][k]);
      assert !IsSpace(s[k + 1]);
    }
  }

  lemma {:induction false} WordLengthAppend(s: string, c: char)
    requires !IsSpace(c)
    ensures WordLength(s + [c]) == if WordLength(s) == |s| then |s| + 1 else WordLength(s)
  {
    if s != [] && !IsSpace(s[0]) {
      assert (s + [c])[1..] == s[1..] + [c];
      WordLengthAppend(s[1..], c);
    }
  }

  /** Appending a non-whitespace character starts a new word exactly when
      `s` is empty or ends in whitespace; otherwise it extends the last word. */
  lemma {:induction false} WordsAppend(s: string, c: char)
    requires !IsSpace(c)
    ensures |Words(s + [c])| == |Words(s)| + (if s == [] || IsSpace(s[|s| - 1]) then 1 else 0)
    decreases |s|
  {
    if s == [] {
      WordsOfOneChar(c);
    } else if IsSpace(s[0]) {
      WordsAppend(s[1..], c);
      WordsAppendAfterSpace(s, c);
    } else if WordLength(s) == |s| {
      WordsAppendToWord(s, c);
    } else {
      WordsAppend(s[WordLength(s)..], c);
      WordsAppendAfterWord(s, c);
    }
  }

  lemma WordsOfOneChar(c: char)
    requires !IsSpace(c)
    ensures |Words([c])| == 1
  {
    assert WordLength([c]) == 1 by {
      assert [c][1..] == [];
    }
    assert Words([c]) == [[c][..1]] + Words([c][1..]);
    assert [c][1..] == [];
  }

  /** The case of `WordsAppend` where `s` starts with whitespace. */
  lemma WordsAppendAfterSpace(s: string, c: char)
    requires !IsSpace(c) && s != [] && IsSpace(s[0])
    requires var t := s[1..];
      |Words(t + [c])| == |Words(t)| + (if t == [] || IsSpace(t[|t| - 1]) then 1 else 0)
    ensures |Words(s + [c])| == |Words(s)| + (if IsSpace(s[|s| - 1]) then 1 else 0)
  {
    var t := s[1..];
    assert Words(s + [c]) == Words(t + [c]) by {
      assert (s + [c])[1..] == t + [c];
    }
    assert t != [] ==> t[|t| - 1] == s[|s| - 1];
  }

  /** The case of `WordsAppend` where `s` is a single word. */
  lemma WordsAppendToWord(s: string, c: char)
    requires !IsSpace(c) && s != [] && !IsSpace(s[0]) && WordLength(s) == |s|
    ensures |Words(s + [c])| == |Words(s)| && !IsSpace(s[|s| - 1])
  {
    WordLengthAppend(s, c);
    assert |Words(s + [c])| == 1 by {
      assert (s + [c])[|s| + 1..] == [];
    }
    assert |Words(s)| == 1 by {
      assert s[|s|..] == [];
    }
    assert s[..|s|][|s| - 1] == s[|s| - 1];
  }

  /** The case of `WordsAppend` where `s` starts with a word followed by
      whitespace. */
  lemma WordsAppendAfterWord(s: string, c: char)
    requires !IsSpace(c) && s != [] && !IsSpace(s[0]) && WordLength(s) < |s|
    requires var t := s[WordLength(s)..];
      |Words(t + [c])| == |Words(t)| + (if t == [] || IsSpace(t[|t| - 1]) then 1 else 0)
    ensures |Words(s + [c])| == |Words(s)| + (if IsSpace(s[|s| - 1]) then 1 else 0)
  {
    var n := WordLength(s);
    var t := s[n..];
    assert |Words(s + [c])| == 1 + |Words(t + [c])| by {
      WordLengthAppend(s, c);
      assert (s + [c])[n..] == t + [c];
    }
    assert |Words(s)| == 1 + |Words(t)|;
    assert t[|t| - 1] == s[|s| - 1];
  }

  lemma {:induction false} WordLengthAppendSpace(s: string, c: char)
    requires IsSpace(c)
    ensures WordLength(s + [c]) == WordLength(s)
  {
    if s != [] && !IsSpace(s[0]) {
      assert (s + [c])[1..] == s[1..] + [c];
      WordLengthAppendSpace(s[1..], c);
    }
  }

  /** Appending whitespace never changes the number of words. */
  lemma {:induction false} WordsAppendSpace(s: string, c: char)
    requires IsSpace(c)
    ensures |Words(s + [c])| == |Words(s)|
    decreases |s|
  {
    if s == [] {
      assert [c][1..] == [];
    } else if IsSpace(s[0]) {
      assert (s + [c])[1..] == s[1..] + [c];
      WordsAppendSpace(s[1..], c);
    } else {
      var n := WordLength(s);
      WordLengthAppendSpace(s, c);
      assert (s + [c])[..n] == s[..n];
      assert (s + [c])[n..] == s[n..] + [c];
      WordsAppendSpace(s[n..], c);
    }
  }

  /** Appending a non-empty run of non-whitespace adds one word when `s` is
      empty or ends in whitespace, and none otherwise. */
  lemma {:induction false} WordsAppendWord(s: string, w: string)
    requires w != [] && HasNoSpace(w)
    ensures |Words(s + w)| == |Words(s)| + (if s == [] || IsSpace(s[|s| - 1]) then 1 else 0)
    decreases |w|
  {
    var c := w[|w| - 1];
    var v := w[..|w| - 1];
    assert s + w == (s + v) + [c];
    if v == [] {
      assert w == [c];
      WordsAppend(s, c);
    } else {
      WordsAppendWord(s, v);
      WordsAppend(s + v, c);
    }
  }

  lemma {:induction false} WordLengthOfRun(w: string, t: string)
    requires HasNoSpace(w)
    requires t == [] || IsSpace(t[0])
    ensures WordLength(w + t) == |w|
  {
    if w == [] {
      assert w + t == t;
    } else {
      assert (w + t)[0] == w[0];
      assert (w + t)[1..] == w[1..] + t;
      WordLengthOfRun(w[1..], t);
    }
  }

  /** The words are the maximal runs: after leading whitespace `b`, a run
      `w` of non-whitespace that ends at whitespace or at the end of the
      string is the first word, and the rest are the words of what follows. */
  lemma {:induction false} WordsFirstRun(b: string, w: string, t: string)
    requires IsBlank(b)
    requires w != [] && HasNoSpace(w)
    requires t == [] || IsSpace(t[0])
    ensures Words(b + w + t) == [w] + Words(t)
    decreases |b|
  {
    if b == [] {
      var s := w + t;
      assert b + w + t == s;
      WordLengthOfRun(w, t);
      assert s[..|w|] == w && s[|w|..] == t;
    } else {
      assert (b + w + t)[0] == b[0];
      assert (b + w + t)[1..] == b[1..] + w + t;
      WordsFirstRun(b[1..], w, t);
    }
  }

  // ---------------------------------------------------------------------------
  // find, split(sep) and join

  /** The two-character separator `sep` occurs in `s` starting at index
      `i`. The summarizer only ever splits on `". "`, so `find` and
      `split(sep)` are modelled for separators of length two. */
  predicate OccursAt(s: string, sep: string, i: int) {
    |sep| == 2 && 0 <= i && i + 2 <= |s| && s[i] == sep[0] && s[i + 1] == sep[1]
  }

  predicate Contains(s: string, sep: string) {
    exists i :: 0 <= i <= |s| && OccursAt(s, sep, i)
  }

  /** `s.find(sep)`: the leftmost index at which `sep` occurs in `s`, if
      any; `FindLeftmost` states what the result means. */
  function Find(s: string, sep: string): (r: Option<nat>)
    requires |sep| == 2
    ensures r.Some? ==> r.value + |sep| <= |s|
    decreases |s|
  {
    if |s| < |sep| then None
    else if OccursAt(s, sep, 0) then Some(0)
    else
      match Find(s[1..], sep)
      case None => None
      case Some(i) => Some(i + 1)
  }

  /** `find` returns an occurrence with none earlier, and nothing only when
      there is no occurrence at all. */
  lemma {:induction false} FindLeftmost(s: string, sep: string)
    requires |sep| == 2
    ensures Find(s, sep).Some? ==> OccursAt(s, sep, Find(s, sep).value)
    ensures Find(s, sep).Some? ==>
      forall j :: 0 <= j < Find(s, sep).value ==> !OccursAt(s, sep, j)
    ensures Find(s, sep).None? ==> !Contains(s, sep)
    decreases |s|
  {
    if |s| >= |sep| && !OccursAt(s, sep, 0) {
      FindLeftmost(s[1..], sep);
      ShiftOccurrence(s, sep);
    }
  }

  /** Occurrences in `s[1..]` are the occurrences in `s` moved one to the left. */
  lemma ShiftOccurrence(s: string, sep: string)
    requires s != []
    ensures forall j :: OccursAt(s[1..], sep, j) ==> OccursAt(s, sep, j + 1)
    ensures forall j :: 0 < j && OccursAt(s, sep, j) ==> OccursAt(s[1..], sep, j - 1)
  {
    forall j | OccursAt(s[1..], sep, j) ensures OccursAt(s, sep, j + 1) {
      forall k | 0 <= k < |sep| ensures s[j + 1 + k] == sep[k] {
        assert s[1..][j + k] == sep[k];
      }
    }
    forall j | 0 < j && OccursAt(s, sep, j) ensures OccursAt(s[1..], sep, j - 1) {
      forall k | 0 <= k < |sep| ensures s[1..][j - 1 + k] == sep[k] {
        assert s[j + k] == sep[k];
      }
    }
  }

  /** An occurrence that lies inside a prefix `t` of `s` is one of `s`, and back. */
  lemma PrefixOccurrence(s: string, t: string, sep: string, j: int)
    requires t <= s
    ensures OccursAt(t, sep, j) ==> OccursAt(s, sep, j)
    ensures OccursAt(s, sep, j) && j + |sep| <= |t| ==> OccursAt(t, sep, j)
  {
    if 0 <= j && j + |sep| <= |t| {
      forall x | j <= x < j + |sep| ensures t[x] == s[x] {
      }
    }
  }

  /** The contract of `Find` determines its result. */
  lemma FindIsFirst(s: string, sep: string, i: nat)
    requires OccursAt(s, sep, i)
    requires forall j :: 0 <= j < i ==> !OccursAt(s, sep, j)
    ensures Find(s, sep) == Some(i)
  {
    FindLeftmost(s, sep);
    match Find(s, sep)
    case None =>
    case Some(k) =>
      if k < i { } else if i < k { }
  }

  /** `find` on a prefix `t` of `s` agrees with `find` on `s` wherever the
      occurrence found in `s` fits inside `t`, and finds nothing otherwise. */
  lemma FindOnPrefix(s: string, t: string, sep: string)
    requires |sep| == 2 && t <= s
    ensures Find(t, sep) == match Find(s, sep)
                            case Some(i) => if i + |sep| <= |t| then Some(i) else None
                            case None => None
  {
    FindLeftmost(s, sep);
    FindLeftmost(t, sep);
    if Find(s, sep).Some? {
      var i := Find(s, sep).value;
      PrefixOccurrence(s, t, sep, i);
      if i + |sep| <= |t| {
        forall j | 0 <= j < i ensures !OccursAt(t, sep, j) {
          PrefixOccurrence(s, t, sep, j);
        }
        FindIsFirst(t, sep, i);
      } else if Find(t, sep).Some? {
        PrefixOccurrence(s, t, sep, Find(t, sep).value);
      }
    } else if Find(t, sep).Some? {
      PrefixOccurrence(s, t, sep, Find(t, sep).value);
    }
  }

  /** `sep.join(parts)`. */
  function Join(sep: string, parts: seq<string>): (r: string)
    ensures |parts| == 1 ==> r == parts[0]
  {
    if parts == [] then []
    else if |parts| == 1 then parts[0]
    else parts[0] + sep + Join(sep, parts[1..])
  }

  /** `s.split(sep)` for a two-character `sep`: the pieces of `s` between
      the leftmost, non-overlapping occurrences of `sep`. */
  function Split(s: string, sep: string): (parts: seq<string>)
    requires |sep| == 2
    ensures |parts| >= 1
    decreases |s|
  {
    match Find(s, sep)
    case None => [s]
    case Some(i) => [s[..i]] + Split(s[i + |sep|..], sep)
  }

  /** No piece of a split contains the separator. */
  lemma {:induction false} SplitPiecesLackSep(s: string, sep: string)
    requires |sep| == 2
    ensures forall k :: 0 <= k < |Split(s, sep)| ==> !Contains(Split(s, sep)[k], sep)
    decreases |s|
  {
    FindLeftmost(s, sep);
    match Find(s, sep)
    case None =>
    case Some(i) =>
      PieceBeforeFirst(s, sep, i);
      SplitPiecesLackSep(s[i + |sep|..], sep);
  }

  lemma PieceBeforeFirst(s: string, sep: string, i: nat)
    requires |sep| == 2 && Find(s, sep) == Some(i)
    ensures !Contains(s[..i], sep)
  {
    FindLeftmost(s, sep);
    forall j | 0 <= j <= i ensures !OccursAt(s[..i], sep, j) {
      PrefixOccurrence(s, s[..i], sep, j);
    }
  }

  /** `s` is the text before an occurrence of `sep`, then `sep`, then the rest. */
  lemma AroundOccurrence(s: string, sep: string, i: nat)
    requires OccursAt(s, sep, i)
    ensures s == s[..i] + sep + s[i + |sep|..]
  {
    assert s[i..i + |sep|] == sep;
    assert s == s[..i] + s[i..i + |sep|] + s[i + |sep|..];
  }

  /** Joining a piece in front of at least one more piece. */
  lemma JoinCons(sep: string, p: string, ps: seq<string>)
    requires |ps| >= 1
    ensures Join(sep, [p] + ps) == p + sep + Join(sep, ps)
  {
    assert ([p] + ps)[1..] == ps;
  }

  /** Joining the pieces of a split with the same separator gives back the
      original string. */
  lemma {:induction false} JoinSplit(s: string, sep: string)
    requires |sep| == 2
    ensures Join(sep, Split(s, sep)) == s
    decreases |s|
  {
    if Find(s, sep).Some? {
      var i := Find(s, sep).value;
      var rest := s[i + |sep|..];
      SplitStep(s, sep, i);
      JoinSplit(rest, sep);
      JoinCons(sep, s[..i], Split(rest, sep));
      FindLeftmost(s, sep);
      AroundOccurrence(s, sep, i);
    }
  }

  /** One step of `Split`: the piece before the first occurrence of `sep`,
      then the pieces of what follows that occurrence. */
  lemma SplitStep(s: string, sep: string, i: nat)
    requires |sep| == 2 && Find(s, sep) == Some(i)
    ensures Split(s, sep) == [s[..i]] + Split(s[i + |sep|..], sep)
  {
  }

  /** Removing the last character never adds a piece to a split. */
  lemma {:induction false} SplitDropLast(s: string, sep: string)
    requires |sep| == 2 && s != []
    ensures |Split(s[..|s| - 1], sep)| <= |Split(s, sep)|
    decreases |s|
  {
    var t := s[..|s| - 1];
    FindOnPrefix(s, t, sep);
    if Find(s, sep).Some? {
      var i := Find(s, sep).value;
      if i + |sep| <= |t| {
        var rest := s[i + |sep|..];
        SplitStep(t, sep, i);
        SplitStep(s, sep, i);
        assert t[i + |sep|..] == rest[..|rest| - 1];
        SplitDropLast(rest, sep);
      }
    }
  }

  lemma SplitShifted(s: string, sep: string, i: nat)
    requires |sep| == 2 && s != [] && 0 < i && Find(s[1..], sep) == Some(i - 1)
    ensures Split(s[1..], sep) == [s[1..i]] + Split(s[i + |sep|..], sep)
  {
    var u := s[1..];
    SplitStep(u, sep, i - 1);
    assert u[i - 1 + |sep|..] == s[i + |sep|..];
    assert u[..i - 1] == s[1..i];
  }

  /** Removing a first character at which `sep` does not start keeps the
      number of pieces. */
  lemma SplitDropFirstPlain(s: string, sep: string)
    requires |sep| == 2 && s != [] && !OccursAt(s, sep, 0)
    ensures |Split(s[1..], sep)| == |Split(s, sep)|
  {
    if Find(s, sep).Some? {
      var i := Find(s, sep).value;
      assert Find(s[1..], sep) == Some(i - 1) by {
        FindLeftmost(s, sep);
        ShiftOccurrence(s, sep);
        FindIsFirst(s[1..], sep, i - 1);
      }
      var rest := s[i + |sep|..];
      assert |Split(s[1..], sep)| == 1 + |Split(rest, sep)| by {
        SplitShifted(s, sep, i);
      }
      assert |Split(s, sep)| == 1 + |Split(s[i + |sep|..], sep)| by {
        SplitStep(s, sep, i);
      }
    } else {
      assert Find(s[1..], sep).None? by {
        FindLeftmost(s, sep);
        FindLeftmost(s[1..], sep);
        ShiftOccurrence(s, sep);
      }
    }
  }

  /** Stripping leading whitespace keeps the number of pieces when `sep`
      does not start with whitespace. */
  lemma {:induction false} StripLeftKeepsPieces(s: string, sep: string)
    requires |sep| == 2 && !IsSpace(sep[0])
    ensures |Split(StripLeft(s), sep)| == |Split(s, sep)|
    decreases |s|
  {
    if s != [] && IsSpace(s[0]) {
      SplitDropFirstPlain(s, sep);
      StripLeftKeepsPieces(s[1..], sep);
    }
  }

  /** Stripping trailing whitespace never adds a piece. */
  lemma {:induction false} StripRightFewerPieces(s: string, sep: string)
    requires |sep| == 2
    ensures |Split(StripRight(s), sep)| <= |Split(s, sep)|
    decreases |s|
  {
    if s != [] && IsSpace(s[|s| - 1]) {
      SplitDropLast(s, sep);
      StripRightFewerPieces(s[..|s| - 1], sep);
    }
  }

  /** `strip()` never adds a piece to a split on a separator that does not
      start with whitespace. */
  lemma StripFewerPieces(s: string, sep: string)
    requires |sep| == 2 && !IsSpace(sep[0])
    ensures |Split(Strip(s), sep)| <= |Split(s, sep)|
  {
    StripLeftKeepsPieces(s, sep);
    StripRightFewerPieces(StripLeft(s), sep);
  }

  /** A string that does not contain `sep` splits into itself alone. */
  lemma SplitWithout(s: string, sep: string)
    requires |sep| == 2 && !Contains(s, sep)
    ensures Split(s, sep) == [s]
  {
    FindLeftmost(s, sep);
  }

  lemma PrefixUnderConcat(a: string, b: string, r: string, s: string)
    requires s == a + r && b <= r
    ensures a + b <= s
  {
    assert s == (a + b) + r[|b|..];
  }

  lemma ConcatAssoc(j: string, a: string, b: string, c: string)
    requires j == a + b
    ensures j + c == a + (b + c)
  {
  }

  /** The first `m` pieces of a split, joined back and followed by `sep`,
      are a prefix of the original string. */
  lemma {:induction false} JoinedPiecesPrefix(s: string, sep: string, m: nat)
    requires |sep| == 2 && 1 <= m < |Split(s, sep)|
    ensures Join(sep, Split(s, sep)[..m]) + sep <= s
    decreases m
  {
    var i := Find(s, sep).value;
    var rest := s[i + |sep|..];
    var p := s[..i] + sep;
    var j := Join(sep, Split(s, sep)[..m]);
    assert s == p + rest by {
      FindLeftmost(s, sep);
      AroundOccurrence(s, sep, i);
    }
    if m == 1 {
      assert j == s[..i] by {
        SplitStep(s, sep, i);
        assert Split(s, sep)[..1] == [s[..i]];
      }
    } else {
      var inner := Join(sep, Split(rest, sep)[..m - 1]);
      assert |Split(rest, sep)| == |Split(s, sep)| - 1 by {
        SplitStep(s, sep, i);
      }
      JoinedPiecesPrefix(rest, sep, m - 1);
      assert j + sep == p + (inner + sep) by {
        JoinedPiecesUnfold(s, sep, m, i);
        ConcatAssoc(j, p, inner, sep);
      }
      PrefixUnderConcat(p, inner + sep, rest, s);
    }
  }

  lemma PrefixOfPrefix(j: string, x: string, sep: string, s: string)
    requires x <= sep && j + sep <= s
    ensures j + x <= s
  {
    assert j + x <= j + sep;
  }

  /** A prefix `t` of `s` that reaches past the first occurrence of `sep`
      in `s` has the same first piece. */
  lemma SplitPrefixStep(s: string, t: string, sep: string, i: nat)
    requires |sep| == 2 && t <= s && Find(s, sep) == Some(i) && i + |sep| <= |t|
    ensures Split(t, sep) == [s[..i]] + Split(t[i + |sep|..], sep)
  {
    assert Find(t, sep) == Some(i) by {
      FindOnPrefix(s, t, sep);
    }
    assert Split(t, sep) == [t[..i]] + Split(t[i + |sep|..], sep) by {
      SplitStep(t, sep, i);
    }
    assert t[..i] == s[..i];
  }

  /** A prefix `t` of `s` that ends before the first occurrence of `sep` in
      `s` is complete is not split at all. */
  lemma SplitPrefixWhole(s: string, t: string, sep: string, i: nat)
    requires |sep| == 2 && t <= s && Find(s, sep) == Some(i) && |t| < i + |sep|
    ensures Split(t, sep) == [t]
  {
    FindOnPrefix(s, t, sep);
  }

  /** The first `m` pieces joined, for `m` of at least two: the first piece,
      the separator, then the next `m - 1` pieces of the rest joined. */
  lemma JoinedPiecesUnfold(s: string, sep: string, m: nat, i: nat)
    requires |sep| == 2 && 2 <= m <= |Split(s, sep)| && Find(s, sep) == Some(i)
    ensures Join(sep, Split(s, sep)[..m])
         == s[..i] + sep + Join(sep, Split(s[i + |sep|..], sep)[..m - 1])
  {
    var tail := Split(s[i + |sep|..], sep);
    assert Split(s, sep) == [s[..i]] + tail by {
      SplitStep(s, sep, i);
    }
    assert Split(s, sep)[..m] == [s[..i]] + tail[..m - 1];
    JoinCons(sep, s[..i], tail[..m - 1]);
  }

  /** The string cut after the `m`-th piece and a proper prefix `x` of the
      separator is a prefix of the original. */
  lemma JoinedCutIsPrefix(s: string, sep: string, m: nat, x: string)
    requires |sep| == 2 && 1 <= m < |Split(s, sep)|
    requires x <= sep
    ensures Join(sep, Split(s, sep)[..m]) + x <= s
  {
    JoinedPiecesPrefix(s, sep, m);
    PrefixOfPrefix(Join(sep, Split(s, sep)[..m]), x, sep, s);
  }

  lemma DropFront(a: string, b: string, c: string)
    ensures (a + b + c)[|a|..] == b + c
  {
    assert a + b + c == a + (b + c);
  }

  /** A prefix `t` of `s` made of the first piece of `s`, the separator and
      some `r` splits into that piece followed by the pieces of `r`. */
  lemma SplitPrefixCons(s: string, sep: string, i: nat, t: string, r: string)
    requires |sep| == 2 && Find(s, sep) == Some(i) && t <= s
    requires t == s[..i] + sep + r
    ensures Split(t, sep) == [s[..i]] + Split(r, sep)
  {
    assert t[i + |sep|..] == r by {
      DropFront(s[..i], sep, r);
    }
    assert Split(t, sep) == [s[..i]] + Split(t[i + |sep|..], sep) by {
      SplitPrefixStep(s, t, sep, i);
    }
  }

  lemma AppendAssoc<T>(a: seq<T>, b: seq<T>, c: seq<T>)
    ensures a + (b + c) == (a + b) + c
  {
  }

  /** The first `m - 1` pieces and the `m`-th piece of a split, in terms of
      the split of what follows the first occurrence. */
  lemma SplitTake(s: string, sep: string, m: nat, i: nat)
    requires |sep| == 2 && 2 <= m <= |Split(s, sep)| && Find(s, sep) == Some(i)
    ensures Split(s, sep)[..m - 1] == [s[..i]] + Split(s[i + |sep|..], sep)[..m - 2]
    ensures Split(s, sep)[m - 1] == Split(s[i + |sep|..], sep)[m - 2]
  {
    SplitStep(s, sep, i);
  }

  /** The cut after the first piece: that piece followed by `x`. */
  lemma JoinedCutFirst(s: string, sep: string, x: string, i: nat)
    requires |sep| == 2 && 1 < |Split(s, sep)| && Find(s, sep) == Some(i)
    requires x <= sep && |x| < |sep|
    ensures Split(Join(sep, Split(s, sep)[..1]) + x, sep) == [s[..i] + x]
  {
    var t := Join(sep, Split(s, sep)[..1]) + x;
    assert t <= s by {
      JoinedCutIsPrefix(s, sep, 1, x);
    }
    assert t == s[..i] + x by {
      SplitStep(s, sep, i);
      assert Split(s, sep)[..1] == [s[..i]];
    }
    SplitPrefixWhole(s, t, sep, i);
  }

  /** The cut after the `m`-th piece, for `m` of at least two: the first
      piece, then the pieces of the cut after the `m - 1`-th piece of the
      rest. */
  lemma JoinedCutStep(s: string, sep: string, m: nat, x: string, i: nat)
    requires |sep| == 2 && 2 <= m < |Split(s, sep)| && Find(s, sep) == Some(i)
    requires x <= sep && |x| < |sep|
    ensures Split(Join(sep, Split(s, sep)[..m]) + x, sep)
         == [s[..i]] + Split(Join(sep, Split(s[i + |sep|..], sep)[..m - 1]) + x, sep)
  {
    var j := Join(sep, Split(s, sep)[..m]);
    var inner := Join(sep, Split(s[i + |sep|..], sep)[..m - 1]);
    assert j + x <= s by {
      JoinedCutIsPrefix(s, sep, m, x);
    }
    assert j + x == s[..i] + sep + (inner + x) by {
      JoinedPiecesUnfold(s, sep, m, i);
      ConcatAssoc(j, s[..i] + sep, inner, x);
    }
    SplitPrefixCons(s, sep, i, j + x, inner + x);
  }

  /** Cutting a string just after its `m`-th piece and a proper prefix `x`
      of the separator leaves the first `m - 1` pieces, then the `m`-th piece
      followed by `x`. */
  lemma {:induction false} SplitOfJoinedPieces(s: string, sep: string, m: nat, x: string)
    requires |sep| == 2 && 1 <= m < |Split(s, sep)|
    requires x <= sep && |x| < |sep|
    ensures Split(Join(sep, Split(s, sep)[..m]) + x, sep)
         == Split(s, sep)[..m - 1] + [Split(s, sep)[m - 1] + x]
    decreases m
  {
    var i := Find(s, sep).value;
    if m == 1 {
      JoinedCutFirst(s, sep, x, i);
    } else {
      var rest := s[i + |sep|..];
      var tail := Split(rest, sep);
      assert |tail| == |Split(s, sep)| - 1 by {
        SplitStep(s, sep, i);
      }
      JoinedCutStep(s, sep, m, x, i);
      SplitOfJoinedPieces(rest, sep, m - 1, x);
      SplitTake(s, sep, m, i);
      AppendAssoc([s[..i]], tail[..m - 2], [tail[m - 2] + x]);
    }
  }
}
