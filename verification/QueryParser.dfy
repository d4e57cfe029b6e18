/**
  `QueryParser`: one pass over a copy of the text that cuts it up in place and keeps pointers into it, and a second pass
  that collects the components of the vector.
 */
module QueryParser {
  import opened Options
  import opened QueryText

  // ----- what the pass leaves in the buffer -----

  /** What has become of character `j` once it is read. */
  function Rewritten(s: string, separators: string, j: nat): char
    requires j < |s|
  {
    var a := WordStart(s, j);
    if IsSpace(s[j]) then NUL
    else if s[a] == '$' then
      if j < a + 2 || Sep(s, a, j) < j then s[j] else if IsSep(s[j]) then NUL else ToLower(s[j])
    else if s[a] == '#' then s[j]
    else if j > a && s[j] in separators then NUL
    else s[j]
  }

  ghost predicate IsRewritten(buffer: seq<char>, s: string, separators: string) {
    |s| < |buffer| && buffer[|s|] == NUL && forall j :: 0 <= j < |s| ==> RewrittenAt(buffer, s, separators, j)
  }

  ghost predicate RewrittenAt(buffer: seq<char>, s: string, separators: string, j: nat)
    requires j < |s| && j < |buffer|
  {
    buffer[j] == Rewritten(s, separators, j)
  }

  datatype Pointers = Pointers(name: nat, value: nat)

  function OptionPointers(s: string, words: seq<Range>): seq<Pointers>
    requires InText(s, words)
  {
    if words == [] then []
    else
      var n := |words| - 1;
      OptionPointers(s, words[..n]) + WordPointers(s, words[n])
  }

  function WordPointers(s: string, w: Range): seq<Pointers>
    requires w.a < w.b <= |s|
  {
    if HasOption(s, w) then [Pointers(w.a + 1, Sep(s, w.a, w.b) + 1)] else []
  }

  /** Where the runs of non-NUL characters in `[b, e)` start. */
  function RunStarts(buffer: seq<char>, b: nat, e: nat): seq<nat>
    requires b <= e <= |buffer|
    decreases e
  {
    if e == b then []
    else
      RunStarts(buffer, b, e - 1) +
      (if buffer[e - 1] != NUL && (e - 1 == b || buffer[e - 2] == NUL) then [e - 1] else [])
  }

  /** Overwritten characters start nothing. */
  lemma {:induction false} NoStarts(buffer: seq<char>, b: nat, i: nat, e: nat)
    requires b <= i <= e <= |buffer| && forall j :: i <= j < e ==> buffer[j] == NUL
    ensures RunStarts(buffer, b, e) == RunStarts(buffer, b, i)
    decreases e
  {
    if i < e {
      NoStarts(buffer, b, i, e - 1);
    }
  }

  /** A run starts once. */
  lemma {:induction false} OneStart(buffer: seq<char>, b: nat, i: nat, e: nat)
    requires b <= i < e <= |buffer| && (i == b || buffer[i - 1] == NUL) && forall j :: i <= j < e ==> buffer[j] != NUL
    ensures RunStarts(buffer, b, e) == RunStarts(buffer, b, i) + [i]
    decreases e
  {
    if i < e - 1 {
      OneStart(buffer, b, i, e - 1);
    }
  }

  // ----- C strings in the buffer -----

  /** The C string at `p`, as far as `e`. */
  function CString(buffer: seq<char>, p: nat, e: nat): (t: string)
    requires p <= e <= |buffer|
    ensures |t| <= e - p
    decreases e
  {
    if e == p then ""
    else
      var t := CString(buffer, p, e - 1);
      if |t| == e - 1 - p && buffer[e - 1] != NUL then t + [buffer[e - 1]] else t
  }

  function TextAt(buffer: seq<char>, p: nat): string {
    if p <= |buffer| then CString(buffer, p, |buffer|) else ""
  }

  lemma {:induction false} CStringPlain(buffer: seq<char>, p: nat, e: nat)
    requires p <= e <= |buffer| && forall j :: p <= j < e ==> buffer[j] != NUL
    ensures CString(buffer, p, e) == buffer[p..e]
    decreases e
  {
    if p < e {
      CStringPlain(buffer, p, e - 1);
      assert buffer[p..e] == buffer[p..e - 1] + [buffer[e - 1]];
    }
  }

  lemma {:induction false} CStringStops(buffer: seq<char>, p: nat, q: nat, e: nat)
    requires p <= q < e <= |buffer| && buffer[q] == NUL && forall j :: p <= j < q ==> buffer[j] != NUL
    ensures CString(buffer, p, e) == buffer[p..q]
    decreases e
  {
    if q == e - 1 {
      CStringPlain(buffer, p, q);
    } else {
      CStringStops(buffer, p, q, e - 1);
    }
  }

  function Texts(buffer: seq<char>, options: seq<Pointers>): seq<Param> {
    if options == [] then []
    else
      var n := |options| - 1;
      Texts(buffer, options[..n]) + [Param(TextAt(buffer, options[n].name), TextAt(buffer, options[n].value))]
  }

  function TextsAt(buffer: seq<char>, ps: seq<nat>): seq<string> {
    if ps == [] then [] else TextsAt(buffer, ps[..|ps| - 1]) + [TextAt(buffer, ps[|ps| - 1])]
  }

  // ----- the buffer holds what the words say -----

  lemma WordEnd(buffer: seq<char>, s: string, separators: string, w: Range)
    requires IsRewritten(buffer, s, separators) && IsWord(s, w)
    ensures buffer[w.b] == NUL
  {
    if w.b < |s| {
      assert RewrittenAt(buffer, s, separators, w.b);
    }
  }

  lemma RewrittenInName(buffer: seq<char>, s: string, separators: string, w: Range, j: nat)
    requires IsRewritten(buffer, s, separators) && IsWord(s, w) && s[w.a] == '$' && w.a < j < w.b
      && j <= Sep(s, w.a, w.b)
    ensures buffer[j] == if j == w.a + 1 then s[j] else if j == Sep(s, w.a, w.b) then NUL else ToLower(s[j])
  {
    InsideWord(s, w, j);
    SepPrefix(s, w.a, w.b, j);
    assert RewrittenAt(buffer, s, separators, j);
    if w.a + 2 <= j < Sep(s, w.a, w.b) {
      SepPrefix(s, w.a, w.b, j + 1);
    }
  }

  lemma RewrittenInValue(buffer: seq<char>, s: string, separators: string, w: Range, j: nat)
    requires IsRewritten(buffer, s, separators) && IsWord(s, w) && s[w.a] == '$' && Sep(s, w.a, w.b) < j < w.b
    ensures buffer[j] == s[j]
  {
    InsideWord(s, w, j);
    SepPrefix(s, w.a, w.b, j);
    assert RewrittenAt(buffer, s, separators, j);
  }

  lemma NameChars(buffer: seq<char>, s: string, separators: string, w: Range)
    requires IsRewritten(buffer, s, separators) && IsWord(s, w) && HasOption(s, w) && NUL !in s
    ensures forall j :: w.a < j < Sep(s, w.a, w.b) ==>
      buffer[j] == (if j == w.a + 1 then s[j] else ToLower(s[j])) != NUL
    ensures buffer[Sep(s, w.a, w.b)] == NUL
  {
    var k := Sep(s, w.a, w.b);
    forall j | w.a < j < k
      ensures buffer[j] == (if j == w.a + 1 then s[j] else ToLower(s[j])) != NUL
    {
      RewrittenInName(buffer, s, separators, w, j);
    }
    RewrittenInName(buffer, s, separators, w, k);
  }

  lemma {:induction false} LowerSlice(buffer: seq<char>, s: string, p: nat, k: nat)
    requires p <= k <= |s| && k < |buffer|
    requires forall j :: p <= j < k ==> buffer[j] == ToLower(s[j])
    ensures buffer[p..k] == LowerText(s[p..k])
    decreases k
  {
    if p < k {
      LowerSlice(buffer, s, p, k - 1);
      assert s[p..k] == s[p..k - 1] + [s[k - 1]];
      assert buffer[p..k] == buffer[p..k - 1] + [buffer[k - 1]];
    }
  }

  lemma NameSlice(buffer: seq<char>, s: string, p: nat, k: nat)
    requires p < k <= |s| && k < |buffer|
    requires forall j :: p <= j < k ==> buffer[j] == if j == p then s[j] else ToLower(s[j])
    ensures buffer[p..k] == NameText(s[p..k])
  {
    LowerSlice(buffer, s, p + 1, k);
    assert s[p..k][1..] == s[p + 1..k];
    assert buffer[p..k] == [buffer[p]] + buffer[p + 1..k];
  }

  lemma ValueChars(buffer: seq<char>, s: string, separators: string, w: Range)
    requires IsRewritten(buffer, s, separators) && IsWord(s, w) && HasOption(s, w) && NUL !in s
    ensures forall j :: Sep(s, w.a, w.b) < j < w.b ==> buffer[j] == s[j] != NUL
    ensures buffer[w.b] == NUL
  {
    forall j | Sep(s, w.a, w.b) < j < w.b
      ensures buffer[j] == s[j] != NUL
    {
      RewrittenInValue(buffer, s, separators, w, j);
    }
    WordEnd(buffer, s, separators, w);
  }

  lemma Copied(buffer: seq<char>, s: string, p: nat, q: nat)
    requires p <= q <= |s| && q < |buffer| && buffer[q] == NUL
    requires forall j :: p <= j < q ==> buffer[j] == s[j] != NUL
    ensures TextAt(buffer, p) == s[p..q]
  {
    CStringStops(buffer, p, q, |buffer|);
  }

  lemma Lowered(buffer: seq<char>, s: string, p: nat, k: nat)
    requires p < k <= |s| && k < |buffer| && buffer[k] == NUL
    requires forall j :: p <= j < k ==> buffer[j] == (if j == p then s[j] else ToLower(s[j])) != NUL
    ensures TextAt(buffer, p) == NameText(s[p..k])
  {
    CStringStops(buffer, p, k, |buffer|);
    NameSlice(buffer, s, p, k);
  }

  lemma TextsAppend(buffer: seq<char>, options: seq<Pointers>, o: Pointers)
    ensures Texts(buffer, options + [o]) == Texts(buffer, options) +
      [Param(TextAt(buffer, o.name), TextAt(buffer, o.value))]
  {
    assert (options + [o])[..|options|] == options;
  }

  lemma WordName(buffer: seq<char>, s: string, separators: string, w: Range)
    requires IsRewritten(buffer, s, separators) && IsWord(s, w) && HasOption(s, w) && NUL !in s
    ensures TextAt(buffer, w.a + 1) == OptionText(s, w).name
  {
    NameChars(buffer, s, separators, w);
    Lowered(buffer, s, w.a + 1, Sep(s, w.a, w.b));
  }

  lemma WordValue(buffer: seq<char>, s: string, separators: string, w: Range)
    requires IsRewritten(buffer, s, separators) && IsWord(s, w) && HasOption(s, w) && NUL !in s
    ensures TextAt(buffer, Sep(s, w.a, w.b) + 1) == OptionText(s, w).value
  {
    ValueChars(buffer, s, separators, w);
    Copied(buffer, s, Sep(s, w.a, w.b) + 1, w.b);
  }

  lemma WordPointersMean(buffer: seq<char>, s: string, separators: string, options: seq<Pointers>, w: Range)
    requires IsRewritten(buffer, s, separators) && IsWord(s, w) && NUL !in s
    ensures Texts(buffer, options + WordPointers(s, w)) == Texts(buffer, options) + WordOptions(s, w)
  {
    if HasOption(s, w) {
      WordName(buffer, s, separators, w);
      WordValue(buffer, s, separators, w);
      TextsAppend(buffer, options, Pointers(w.a + 1, Sep(s, w.a, w.b) + 1));
    } else {
      assert options + WordPointers(s, w) == options;
    }
  }

  /** Following the pointers gives the options the words name. */
  lemma {:induction false} PointersMean(buffer: seq<char>, s: string, separators: string, words: seq<Range>)
    requires IsRewritten(buffer, s, separators) && AreWords(s, words) && InText(s, words) && NUL !in s
    ensures Texts(buffer, OptionPointers(s, words)) == OptionTexts(s, words)
    decreases |words|
  {
    if words != [] {
      var n := |words| - 1;
      PointersMean(buffer, s, separators, words[..n]);
      WordPointersMean(buffer, s, separators, OptionPointers(s, words[..n]), words[n]);
    }
  }

  lemma Base64Of(buffer: seq<char>, s: string, separators: string, w: Range)
    requires IsRewritten(buffer, s, separators) && IsWord(s, w) && s[w.a] == '#'
    ensures w.b <= |buffer| && buffer[w.a + 1..w.b] == s[w.a + 1..w.b]
  {
    forall j | w.a < j < w.b
      ensures buffer[j] == s[j]
    {
      InsideWord(s, w, j);
      assert RewrittenAt(buffer, s, separators, j);
    }
  }

  lemma RewrittenInVector(buffer: seq<char>, s: string, separators: string, w: Range, j: nat)
    requires IsRewritten(buffer, s, separators) && IsWord(s, w) && KindOf(s[w.a]) == VectorWord && w.a <= j < w.b
      && NUL !in s
    ensures buffer[j] == NUL <==> IsCut(s, separators, w, j)
    ensures buffer[j] != NUL ==> buffer[j] == s[j]
  {
    InsideWord(s, w, j);
    assert RewrittenAt(buffer, s, separators, j);
  }

  ghost predicate AtMost(ps: seq<nat>, e: nat) {
    forall n :: 0 <= n < |ps| ==> ps[n] <= e
  }

  /** The strings at the starts of the runs, read no further than `e`. */
  ghost function TextsUpTo(buffer: seq<char>, ps: seq<nat>, e: nat): (ts: seq<string>)
    requires e <= |buffer| && AtMost(ps, e)
    ensures |ts| == |ps|
  {
    if ps == [] then [] else TextsUpTo(buffer, ps[..|ps| - 1], e) + [CString(buffer, ps[|ps| - 1], e)]
  }

  lemma {:induction false} RunStartsBound(buffer: seq<char>, b: nat, e: nat)
    requires b <= e <= |buffer|
    ensures forall n :: 0 <= n < |RunStarts(buffer, b, e)| ==> b <= RunStarts(buffer, b, e)[n] < e
    decreases e
  {
    if b < e {
      RunStartsBound(buffer, b, e - 1);
    }
  }

  /** The runs of `[b, e)` as far as `e`. */
  ghost function RunTexts(buffer: seq<char>, b: nat, e: nat): (ts: seq<string>)
    requires b <= e <= |buffer|
    ensures |ts| == |RunStarts(buffer, b, e)|
  {
    RunStartsBound(buffer, b, e);
    TextsUpTo(buffer, RunStarts(buffer, b, e), e)
  }

  lemma {:induction false} CStringPast(buffer: seq<char>, p: nat, e: nat, f: nat)
    requires p <= e < f <= |buffer| && buffer[e] == NUL
    ensures CString(buffer, p, f) == CString(buffer, p, e)
    decreases f
  {
    if e < f - 1 {
      CStringPast(buffer, p, e, f - 1);
    }
  }

  /** Behind a NUL every string that began before it has ended. */
  lemma EndedAtNul(buffer: seq<char>, p: nat, e: nat)
    requires p < e <= |buffer| && buffer[e - 1] == NUL
    ensures |CString(buffer, p, e)| < e - p && CString(buffer, p, e) == CString(buffer, p, e - 1)
  {
  }

  ghost predicate Ended(buffer: seq<char>, p: nat, e: nat)
    requires e <= |buffer|
  {
    p <= e && |CString(buffer, p, e)| < e - p
  }

  /** In front of a character that is no NUL only the last run is still open. */
  lemma {:induction false} LastRunOpen(buffer: seq<char>, b: nat, e: nat)
    requires b < e <= |buffer| && buffer[e - 1] != NUL
    ensures var ps := RunStarts(buffer, b, e);
      && ps != [] && ps[|ps| - 1] < e && |CString(buffer, ps[|ps| - 1], e)| == e - ps[|ps| - 1]
      && forall n :: 0 <= n < |ps| - 1 ==> Ended(buffer, ps[n], e)
    decreases e
  {
    var ps, before := RunStarts(buffer, b, e), RunStarts(buffer, b, e - 1);
    RunStartsBound(buffer, b, e - 1);
    if e - 1 == b || buffer[e - 2] == NUL {
      forall n | 0 <= n < |ps| - 1
        ensures Ended(buffer, ps[n], e)
      {
        assert ps[n] == before[n];
        EndedAtNul(buffer, ps[n], e - 1);
      }
    } else {
      LastRunOpen(buffer, b, e - 1);
      assert ps == before;
      forall n | 0 <= n < |ps| - 1
        ensures Ended(buffer, ps[n], e)
      {
        assert Ended(buffer, before[n], e - 1);
      }
    }
  }

  lemma {:induction false} TextsUpToSame(buffer: seq<char>, ps: seq<nat>, e: nat, f: nat)
    requires e <= |buffer| && f <= |buffer|
    requires AtMost(ps, e) && AtMost(ps, f)
    requires forall n :: 0 <= n < |ps| ==> CString(buffer, ps[n], e) == CString(buffer, ps[n], f)
    ensures TextsUpTo(buffer, ps, e) == TextsUpTo(buffer, ps, f)
    decreases |ps|
  {
    if ps != [] {
      TextsUpToSame(buffer, ps[..|ps| - 1], e, f);
    }
  }

  lemma {:induction false} TextsUpToIsTextsAt(buffer: seq<char>, ps: seq<nat>)
    requires AtMost(ps, |buffer|)
    ensures TextsUpTo(buffer, ps, |buffer|) == TextsAt(buffer, ps)
    decreases |ps|
  {
    if ps != [] {
      TextsUpToIsTextsAt(buffer, ps[..|ps| - 1]);
    }
  }

  lemma PiecesAtNul(buffer: seq<char>, b: nat, e: nat)
    requires b < e <= |buffer| && buffer[e - 1] == NUL
    ensures RunTexts(buffer, b, e) == RunTexts(buffer, b, e - 1)
  {
    var ps := RunStarts(buffer, b, e - 1);
    RunStartsBound(buffer, b, e - 1);
    forall n | 0 <= n < |ps|
      ensures CString(buffer, ps[n], e) == CString(buffer, ps[n], e - 1)
    {
      EndedAtNul(buffer, ps[n], e);
    }
    assert RunStarts(buffer, b, e) == ps;
    TextsUpToSame(buffer, ps, e, e - 1);
  }

  lemma EndedStays(buffer: seq<char>, p: nat, e: nat)
    requires e < |buffer| && Ended(buffer, p, e)
    ensures CString(buffer, p, e + 1) == CString(buffer, p, e)
  {
  }

  /** A run that starts at `e - 1` leaves the earlier ones as they are. */
  lemma EarlierRuns(buffer: seq<char>, b: nat, e: nat)
    requires b < e <= |buffer| && (e - 1 == b || buffer[e - 2] == NUL)
    ensures AtMost(RunStarts(buffer, b, e - 1), e)
      && TextsUpTo(buffer, RunStarts(buffer, b, e - 1), e) == RunTexts(buffer, b, e - 1)
  {
    var ps := RunStarts(buffer, b, e - 1);
    RunStartsBound(buffer, b, e - 1);
    forall n | 0 <= n < |ps|
      ensures CString(buffer, ps[n], e) == CString(buffer, ps[n], e - 1)
    {
      EndedAtNul(buffer, ps[n], e - 1);
      EndedStays(buffer, ps[n], e - 1);
    }
    TextsUpToSame(buffer, ps, e, e - 1);
  }

  lemma PiecesAtRun(buffer: seq<char>, b: nat, e: nat)
    requires b < e <= |buffer| && buffer[e - 1] != NUL && (e - 1 == b || buffer[e - 2] == NUL)
    ensures RunTexts(buffer, b, e) == RunTexts(buffer, b, e - 1) + [[buffer[e - 1]]]
  {
    EarlierRuns(buffer, b, e);
    OneChar(buffer, e);
    OneMore(buffer, RunStarts(buffer, b, e - 1), e - 1, e);
    assert RunStarts(buffer, b, e) == RunStarts(buffer, b, e - 1) + [e - 1];
  }

  lemma OneMore(buffer: seq<char>, ps: seq<nat>, p: nat, e: nat)
    requires e <= |buffer| && AtMost(ps, e) && p <= e
    ensures AtMost(ps + [p], e) && TextsUpTo(buffer, ps + [p], e) == TextsUpTo(buffer, ps, e) + [CString(buffer, p, e)]
  {
    assert (ps + [p])[..|ps|] == ps;
  }

  lemma OneChar(buffer: seq<char>, e: nat)
    requires 0 < e <= |buffer| && buffer[e - 1] != NUL
    ensures CString(buffer, e - 1, e) == [buffer[e - 1]]
  {
    assert CString(buffer, e - 1, e - 1) == "";
  }

  ghost predicate AllEnded(buffer: seq<char>, ps: seq<nat>, e: nat)
    requires e <= |buffer|
  {
    forall n :: 0 <= n < |ps| ==> Ended(buffer, ps[n], e)
  }

  lemma {:induction false} EndedTexts(buffer: seq<char>, ps: seq<nat>, e: nat)
    requires e < |buffer| && AllEnded(buffer, ps, e)
    ensures AtMost(ps, e) && AtMost(ps, e + 1) && TextsUpTo(buffer, ps, e + 1) == TextsUpTo(buffer, ps, e)
    decreases |ps|
  {
    if ps != [] {
      var n := |ps| - 1;
      EndedTexts(buffer, ps[..n], e);
      assert Ended(buffer, ps[n], e);
      EndedStays(buffer, ps[n], e);
    }
  }

  lemma Longer(buffer: seq<char>, p: nat, e: nat)
    requires p <= e < |buffer| && buffer[e] != NUL && |CString(buffer, p, e)| == e - p
    ensures CString(buffer, p, e + 1) == CString(buffer, p, e) + [buffer[e]]
  {
  }

  /** If all strings but the last have ended, only the last one grows. */
  lemma LastGrows(buffer: seq<char>, ps: seq<nat>, e: nat)
    requires e < |buffer| && ps != [] && AllEnded(buffer, ps[..|ps| - 1], e) && AtMost(ps, e) && AtMost(ps, e + 1)
    requires buffer[e] != NUL && |CString(buffer, ps[|ps| - 1], e)| == e - ps[|ps| - 1]
    ensures TextsUpTo(buffer, ps, e + 1) == Extended(TextsUpTo(buffer, ps, e), buffer[e])
  {
    EndedTexts(buffer, ps[..|ps| - 1], e);
    Longer(buffer, ps[|ps| - 1], e);
  }

  lemma PiecesInRun(buffer: seq<char>, b: nat, e: nat)
    requires b < e - 1 < |buffer| && buffer[e - 1] != NUL && buffer[e - 2] != NUL
    ensures RunTexts(buffer, b, e - 1) != []
    ensures RunTexts(buffer, b, e) == Extended(RunTexts(buffer, b, e - 1), buffer[e - 1])
  {
    var ps := RunStarts(buffer, b, e - 1);
    RunStartsBound(buffer, b, e - 1);
    LastRunOpen(buffer, b, e - 1);
    assert RunStarts(buffer, b, e) == ps;
    LastGrows(buffer, ps, e - 1);
  }

  function NextTexts(before: seq<string>, cut: bool, first: bool, c: char): seq<string> {
    if cut then before else if first then before + [[c]] else if before == [] then [] else Extended(before, c)
  }

  lemma RunTextsStep(buffer: seq<char>, b: nat, e: nat)
    requires b < e <= |buffer|
    ensures RunTexts(buffer, b, e) ==
      NextTexts(RunTexts(buffer, b, e - 1), buffer[e - 1] == NUL, e - 1 == b || buffer[e - 2] == NUL, buffer[e - 1])
  {
    if buffer[e - 1] == NUL {
      PiecesAtNul(buffer, b, e);
    } else if e - 1 == b || buffer[e - 2] == NUL {
      PiecesAtRun(buffer, b, e);
    } else {
      PiecesInRun(buffer, b, e);
    }
  }

  lemma PiecesStep(s: string, separators: string, w: Range, e: nat)
    requires w.a < e <= |s|
    ensures Pieces(s, separators, w, e) == NextTexts(Pieces(s, separators, w, e - 1), IsCut(s, separators, w, e - 1),
      e - 1 == w.a || IsCut(s, separators, w, e - 2), s[e - 1])
  {
  }

  /** The buffer holds the vector word with its cuts turned into NULs. */
  ghost predicate HoldsVector(buffer: seq<char>, s: string, separators: string, w: Range) {
    && w.a < w.b <= |s| && w.b < |buffer|
    && forall j :: w.a <= j < w.b ==> HoldsAt(buffer, s, separators, w, j)
  }

  ghost predicate HoldsAt(buffer: seq<char>, s: string, separators: string, w: Range, j: nat)
    requires j < |s| && j < |buffer|
  {
    (buffer[j] == NUL <==> IsCut(s, separators, w, j)) && (buffer[j] != NUL ==> buffer[j] == s[j])
  }

  lemma RewrittenHoldsVector(buffer: seq<char>, s: string, separators: string, w: Range)
    requires IsRewritten(buffer, s, separators) && IsWord(s, w) && KindOf(s[w.a]) == VectorWord && NUL !in s
    ensures HoldsVector(buffer, s, separators, w) && buffer[w.b] == NUL
  {
    WordEnd(buffer, s, separators, w);
    forall j | w.a <= j < w.b
      ensures HoldsAt(buffer, s, separators, w, j)
    {
      RewrittenInVector(buffer, s, separators, w, j);
    }
  }

  /** The runs the second pass collects are the components of the vector word. */
  lemma {:induction false} RunsArePieces(buffer: seq<char>, s: string, separators: string, w: Range, e: nat)
    requires HoldsVector(buffer, s, separators, w) && w.a <= e <= w.b
    ensures RunTexts(buffer, w.a, e) == Pieces(s, separators, w, e)
    decreases e
  {
    if e > w.a {
      RunsArePieces(buffer, s, separators, w, e - 1);
      RunTextsStep(buffer, w.a, e);
      PiecesStep(s, separators, w, e);
      HoldsStep(buffer, s, separators, w, e, Pieces(s, separators, w, e - 1));
    }
  }

  lemma HoldsStep(buffer: seq<char>, s: string, separators: string, w: Range, e: nat, before: seq<string>)
    requires HoldsVector(buffer, s, separators, w) && w.a < e <= w.b
    ensures NextTexts(before, buffer[e - 1] == NUL, e - 1 == w.a || buffer[e - 2] == NUL, buffer[e - 1]) ==
      NextTexts(before, IsCut(s, separators, w, e - 1), e - 1 == w.a || IsCut(s, separators, w, e - 2), s[e - 1])
  {
    assert HoldsAt(buffer, s, separators, w, e - 1);
    if e - 1 > w.a {
      assert HoldsAt(buffer, s, separators, w, e - 2);
    }
  }

  /** Followed to their ends, they are C strings in the buffer. */
  lemma ElementsMean(buffer: seq<char>, s: string, separators: string, w: Range)
    requires HoldsVector(buffer, s, separators, w) && buffer[w.b] == NUL
    ensures TextsAt(buffer, RunStarts(buffer, w.a, w.b)) == Pieces(s, separators, w, w.b)
    ensures RunStarts(buffer, w.a, w.b) != []
  {
    var ps := RunStarts(buffer, w.a, w.b);
    RunsArePieces(buffer, s, separators, w, w.b);
    RunStartsBound(buffer, w.a, w.b);
    forall n | 0 <= n < |ps|
      ensures CString(buffer, ps[n], w.b) == CString(buffer, ps[n], |buffer|)
    {
      CStringPast(buffer, ps[n], w.b, |buffer|);
    }
    TextsUpToSame(buffer, ps, w.b, |buffer|);
    TextsUpToIsTextsAt(buffer, ps);
    assert HoldsAt(buffer, s, separators, w, w.a);
    FirstRun(buffer, w.a, w.b);
  }

  lemma {:induction false} FirstRun(buffer: seq<char>, b: nat, e: nat)
    requires b < e <= |buffer| && buffer[b] != NUL
    ensures RunStarts(buffer, b, e) != []
    decreases e
  {
    if b < e - 1 {
      FirstRun(buffer, b, e - 1);
    }
  }

  // ----- the pass -----

  datatype State = OptionNameBegin | OptionName | OptionValueBegin | OptionValue | Vector | VectorBase64 | Nothing

  /** The state in front of character `i`, from the word that is open there. */
  function StateAt(s: string, i: nat): State
    requires i <= |s|
  {
    var a := WordStart(s, i);
    if a == i then Nothing
    else
      match KindOf(s[a])
      case Base64Word => VectorBase64
      case VectorWord => Vector
      case OptionWord => if i == a + 1 then OptionNameBegin else OptionStateAt(Sep(s, a, i), i)
  }

  function OptionStateAt(k: nat, i: nat): State {
    if k == i then OptionName else if k == i - 1 then OptionValueBegin else OptionValue
  }

  /** The local variables of the pass. */
  datatype Scan = Scan(state: State, optionName: nat, vectorStrBegin: Option<nat>, vectorStrEnd: nat, estDimension: nat)

  function PointersAt(s: string, i: nat): seq<Pointers>
    requires i <= |s|
  {
    AllWordsInText(s);
    OptionPointers(s, Words(s, i)) + OpenPointers(s, i)
  }

  function OpenPointers(s: string, i: nat): seq<Pointers>
    requires i <= |s|
  {
    if WordStart(s, i) < i then WordPointers(s, Range(WordStart(s, i), i)) else []
  }

  lemma OptionPointersAppend(s: string, words: seq<Range>, w: Range)
    requires InText(s, words) && w.a < w.b <= |s|
    ensures InText(s, words + [w]) && OptionPointers(s, words + [w]) == OptionPointers(s, words) + WordPointers(s, w)
  {
    assert (words + [w])[..|words|] == words;
  }

  /** The pointers of all words are those collected when the text ends. */
  lemma PointersAtEnd(s: string)
    ensures InText(s, AllWords(s)) && PointersAt(s, |s|) == OptionPointers(s, AllWords(s))
  {
    AllWordsInText(s);
    if WordStart(s, |s|) < |s| {
      OptionPointersAppend(s, Words(s, |s|), Range(WordStart(s, |s|), |s|));
    } else {
      assert Words(s, |s|) + [] == Words(s, |s|);
    }
  }

  lemma BlankPointers(s: string, i: nat)
    requires i < |s| && IsSpace(s[i])
    ensures PointersAt(s, i + 1) == PointersAt(s, i)
    ensures StateAt(s, i + 1) == Nothing
  {
    AllWordsInText(s);
    if WordStart(s, i) < i {
      OptionPointersAppend(s, Words(s, i), Range(WordStart(s, i), i));
    } else {
      assert Words(s, i) + [] == Words(s, i);
    }
  }

  function WordAt(s: string, i: nat, kind: Kind): Option<Range>
    requires i <= |s|
  {
    AllWordsInText(s);
    LastWord(s, Words(s, i), kind)
  }

  lemma BlankWord(s: string, i: nat, kind: Kind)
    requires i < |s| && IsSpace(s[i])
    ensures WordAt(s, i + 1, kind) ==
      if WordStart(s, i) < i && KindOf(s[WordStart(s, i)]) == kind then Some(Range(WordStart(s, i), i))
        else WordAt(s, i, kind)
  {
    AllWordsInText(s);
    if WordStart(s, i) < i {
    } else {
      assert Words(s, i) + [] == Words(s, i);
    }
  }

  /** The last word of a kind, counting the one the text ends in. */
  lemma EndWord(s: string, kind: Kind)
    ensures InText(s, AllWords(s))
    ensures LastWord(s, AllWords(s), kind) ==
      if WordStart(s, |s|) < |s| && KindOf(s[WordStart(s, |s|)]) == kind then Some(Range(WordStart(s, |s|), |s|))
        else WordAt(s, |s|, kind)
  {
    AllWordsInText(s);
    if WordStart(s, |s|) < |s| {
    } else {
      assert Words(s, |s|) + [] == Words(s, |s|);
    }
  }

  /** A character of a word: what its state, its pointers and its place in the buffer become. */
  lemma InWordStep(s: string, separators: string, i: nat)
    requires i < |s| && !IsSpace(s[i])
    ensures forall kind :: WordAt(s, i + 1, kind) == WordAt(s, i, kind)
    ensures WordStart(s, i + 1) == WordStart(s, i)
    ensures StateAt(s, i) == Nothing ==> (StateAt(s, i + 1) ==
      match KindOf(s[i]) case OptionWord => OptionNameBegin case Base64Word => VectorBase64 case VectorWord => Vector)
    ensures StateAt(s, i) == OptionNameBegin ==> StateAt(s, i + 1) == OptionName
    ensures StateAt(s, i) == OptionName ==> StateAt(s, i + 1) == if IsSep(s[i]) then OptionValueBegin else OptionName
    ensures StateAt(s, i) == OptionValueBegin || StateAt(s, i) == OptionValue ==> StateAt(s, i + 1) == OptionValue
    ensures StateAt(s, i) == Vector || StateAt(s, i) == VectorBase64 ==> StateAt(s, i + 1) == StateAt(s, i)
  {
    AllWordsInText(s);
  }

  lemma InWordPointers(s: string, i: nat)
    requires i < |s| && !IsSpace(s[i])
    ensures PointersAt(s, i + 1) == PointersAt(s, i) +
      if StateAt(s, i) == OptionValueBegin then [Pointers(WordStart(s, i) + 1, i)] else []
  {
    AllWordsInText(s);
    var a := WordStart(s, i);
    assert Words(s, i + 1) == Words(s, i);
    assert WordStart(s, i + 1) == a;
    if a < i && s[a] == '$' {
      SepPrefix(s, a, i + 1, i);
    }
    OpenPointersStep(s, i);
  }

  lemma OpenPointersStep(s: string, i: nat)
    requires i < |s| && !IsSpace(s[i])
    ensures OpenPointers(s, i + 1) == OpenPointers(s, i) +
      if StateAt(s, i) == OptionValueBegin then [Pointers(WordStart(s, i) + 1, i)] else []
  {
    var a := WordStart(s, i);
    assert WordStart(s, i + 1) == a;
    if a < i && s[a] == '$' {
      SepPrefix(s, a, i + 1, i);
    }
  }

  lemma InWordBuffer(s: string, separators: string, i: nat)
    requires i < |s| && !IsSpace(s[i])
    ensures Rewritten(s, separators, i) ==
      match StateAt(s, i)
      case OptionName => if IsSep(s[i]) then NUL else ToLower(s[i])
      case Vector => if s[i] in separators then NUL else s[i]
      case _ => s[i]
  {
  }

  // ----- one character -----

  /** The first `i` characters are rewritten, the others are still as they were. */
  ghost predicate Half(buffer: seq<char>, s: string, separators: string, i: nat) {
    && i <= |s| < |buffer| && buffer[|s|] == NUL
    && (forall j :: 0 <= j < i ==> RewrittenAt(buffer, s, separators, j))
    && (forall j :: i <= j < |s| ==> Untouched(buffer, s, j))
  }

  ghost predicate Untouched(buffer: seq<char>, s: string, j: nat)
    requires j < |s| && j < |buffer|
  {
    buffer[j] == s[j]
  }

  lemma HalfStep(was: seq<char>, now: seq<char>, s: string, separators: string, i: nat)
    requires Half(was, s, separators, i) && i < |s|
    requires now == was[i := Rewritten(s, separators, i)]
    ensures Half(now, s, separators, i + 1)
  {
    forall j | 0 <= j < i
      ensures RewrittenAt(now, s, separators, j)
    {
      assert RewrittenAt(was, s, separators, j);
    }
    forall j | i + 1 <= j < |s|
      ensures Untouched(now, s, j)
    {
      assert Untouched(was, s, j);
    }
  }

  lemma HalfHead(buffer: seq<char>, s: string, separators: string, i: nat)
    requires Half(buffer, s, separators, i) && NUL !in s
    ensures buffer[i] == NUL <==> i == |s|
    ensures i < |s| ==> buffer[i] == s[i]
  {
    if i < |s| {
      assert Untouched(buffer, s, i);
    }
  }

  /** What the parser has found so far. */
  datatype Found = Found(options: seq<Pointers>, base64: Option<nat>, base64Length: nat)

  /** The state and the start of the name are those of the open word. */
  ghost predicate ScanAt(s: string, i: nat, scan: Scan)
    requires i <= |s|
  {
    && scan.state == StateAt(s, i)
    && (scan.state == OptionName || scan.state == OptionValueBegin ==> scan.optionName == WordStart(s, i) + 1)
  }

  /** `vectorStrBegin` and `vectorStrEnd` delimit the last vector word; while one is open its start is known. */
  ghost predicate VectorAt(s: string, i: nat, scan: Scan)
    requires i <= |s|
  {
    if scan.state == Vector then scan.vectorStrBegin == Some(WordStart(s, i))
    else VectorIs(WordAt(s, i, VectorWord), scan)
  }

  ghost predicate VectorIs(w: Option<Range>, scan: Scan) {
    match w
    case None => scan.vectorStrBegin == None && scan.estDimension == 0
    case Some(w) => scan.vectorStrBegin == Some(w.a) && scan.vectorStrEnd == w.b && scan.estDimension > 0
  }

  /**
    `m_vectorBase64` is the rest of the last base64 word, or what it was before; while one is open its start is known.
   */
  ghost predicate Base64At(s: string, i: nat, state: State, found: Found, before: Found)
    requires i <= |s|
  {
    if state == VectorBase64 then found.base64 == Some(WordStart(s, i) + 1)
    else Base64Is(WordAt(s, i, Base64Word), found, before)
  }

  ghost predicate Base64Is(w: Option<Range>, found: Found, before: Found) {
    match w
    case None => found.base64 == before.base64 && found.base64Length == before.base64Length
    case Some(w) => found.base64 == Some(w.a + 1) && found.base64Length == w.b - w.a - 1
  }

  /** All that holds in front of character `i`. */
  ghost predicate Reading(s: string, separators: string, i: nat, scan: Scan, found: Found, before: Found,
      buffer: seq<char>) {
    && i <= |s| && ScanAt(s, i, scan) && VectorAt(s, i, scan)
    && Base64At(s, i, scan.state, found, before) && found.options == PointersAt(s, i)
    && Half(buffer, s, separators, i)
  }

  lemma ReadingHead(s: string, separators: string, i: nat, scan: Scan, found: Found, before: Found, buffer: seq<char>)
    requires Reading(s, separators, i, scan, found, before, buffer) && NUL !in s
    ensures i <= |s| < |buffer|
    ensures buffer[i] == NUL <==> i == |s|
    ensures i < |s| ==> buffer[i] == s[i]
    ensures scan.state == VectorBase64 ==> found.base64.Some? && found.base64.value <= i
  {
    HalfHead(buffer, s, separators, i);
  }

  function ScanBlank(scan: Scan, i: nat): Scan {
    (if scan.state == Vector then scan.(estDimension := scan.estDimension + 1, vectorStrEnd := i)
      else scan).(state := Nothing)
  }

  function FindBlank(found: Found, state: State, i: nat): Found {
    if state == VectorBase64 && found.base64.Some? && found.base64.value <= i then
      found.(base64Length := i - found.base64.value)
    else found
  }

  function ScanChar(scan: Scan, c: char, i: nat, separators: string): Scan {
    match scan.state
    case Nothing =>
      if c == '$' then scan.(state := OptionNameBegin)
      else if c == '#' then scan.(state := VectorBase64)
      else scan.(state := Vector, vectorStrBegin := Some(i))
    case OptionNameBegin => scan.(optionName := i, state := OptionName)
    case OptionName => if IsSep(c) then scan.(state := OptionValueBegin) else scan
    case OptionValueBegin => scan.(state := OptionValue)
    case Vector => if c in separators then scan.(estDimension := scan.estDimension + 1) else scan
    case _ => scan
  }

  function FindChar(found: Found, scan: Scan, c: char, i: nat): Found {
    if scan.state == Nothing && c == '#' then found.(base64 := Some(i + 1))
    else if scan.state == OptionValueBegin then found.(options := found.options + [Pointers(scan.optionName, i)])
    else found
  }

  function CharBecomes(state: State, c: char, separators: string): char {
    match state
    case OptionName => if IsSep(c) then NUL else ToLower(c)
    case Vector => if c in separators then NUL else c
    case _ => c
  }

  lemma BlankVector(s: string, i: nat, scan: Scan)
    requires i < |s| && IsSpace(s[i]) && ScanAt(s, i, scan) && VectorAt(s, i, scan)
    ensures VectorAt(s, i + 1, ScanBlank(scan, i))
  {
    BlankWord(s, i, VectorWord);
  }

  lemma BlankBase64(s: string, i: nat, scan: Scan, found: Found, before: Found)
    requires i < |s| && IsSpace(s[i]) && ScanAt(s, i, scan) && Base64At(s, i, scan.state, found, before)
    ensures Base64At(s, i + 1, Nothing, FindBlank(found, scan.state, i), before)
  {
    BlankWord(s, i, Base64Word);
  }

  /** A blank closes the open word. */
  lemma ReadingBlank(s: string, separators: string, i: nat, scan: Scan, found: Found, before: Found, buffer: seq<char>)
    requires Reading(s, separators, i, scan, found, before, buffer) && i < |s| && IsSpace(s[i])
    ensures Reading(s, separators, i + 1, ScanBlank(scan, i), FindBlank(found, scan.state, i), before, buffer[i := NUL])
  {
    BlankPointers(s, i);
    BlankVector(s, i, scan);
    BlankBase64(s, i, scan, found, before);
    HalfStep(buffer, buffer[i := NUL], s, separators, i);
  }

  lemma CharVector(s: string, separators: string, i: nat, scan: Scan)
    requires i < |s| && !IsSpace(s[i]) && ScanAt(s, i, scan) && VectorAt(s, i, scan)
    ensures VectorAt(s, i + 1, ScanChar(scan, s[i], i, separators))
  {
    InWordStep(s, separators, i);
  }

  lemma CharBase64(s: string, separators: string, i: nat, scan: Scan, found: Found, before: Found)
    requires i < |s| && !IsSpace(s[i]) && ScanAt(s, i, scan) && Base64At(s, i, scan.state, found, before)
    ensures Base64At(s, i + 1, ScanChar(scan, s[i], i, separators).state, FindChar(found, scan, s[i], i), before)
  {
    InWordStep(s, separators, i);
  }

  lemma CharOptions(s: string, i: nat, scan: Scan, found: Found)
    requires i < |s| && !IsSpace(s[i]) && ScanAt(s, i, scan) && found.options == PointersAt(s, i)
    ensures FindChar(found, scan, s[i], i).options == PointersAt(s, i + 1)
  {
    InWordPointers(s, i);
  }

  /** Any other character moves the open word on, or opens one. */
  lemma ReadingChar(s: string, separators: string, i: nat, scan: Scan, found: Found, before: Found, buffer: seq<char>)
    requires Reading(s, separators, i, scan, found, before, buffer) && i < |s| && !IsSpace(s[i])
    ensures Reading(s, separators, i + 1, ScanChar(scan, s[i], i, separators), FindChar(found, scan, s[i], i), before,
      buffer[i := CharBecomes(scan.state, s[i], separators)])
  {
    CharVector(s, separators, i, scan);
    CharBase64(s, separators, i, scan, found, before);
    CharOptions(s, i, scan, found);
    InWordBuffer(s, separators, i);
    HalfStep(buffer, buffer[i := CharBecomes(scan.state, s[i], separators)], s, separators, i);
  }

  // ----- the end of the text -----

  function ScanEnd(scan: Scan, i: nat): Scan {
    if scan.state == Vector then scan.(estDimension := scan.estDimension + 1, vectorStrEnd := i) else scan
  }

  lemma EndVector(s: string, scan: Scan)
    requires ScanAt(s, |s|, scan) && VectorAt(s, |s|, scan)
    ensures VectorIs(QueryVector(s), ScanEnd(scan, |s|))
  {
    EndWord(s, VectorWord);
  }

  lemma EndBase64(s: string, scan: Scan, found: Found, before: Found)
    requires ScanAt(s, |s|, scan) && Base64At(s, |s|, scan.state, found, before)
    ensures Base64Is(QueryBase64(s), FindBlank(found, scan.state, |s|), before)
  {
    EndWord(s, Base64Word);
  }

  lemma EndOptions(s: string, separators: string, found: Found, buffer: seq<char>)
    requires NUL !in s && found.options == PointersAt(s, |s|) && IsRewritten(buffer, s, separators)
    ensures Texts(buffer, found.options) == QueryOptions(s)
  {
    PointersAtEnd(s);
    AllWordsAreWords(s);
    PointersMean(buffer, s, separators, AllWords(s));
  }

  lemma ReadingEnd(s: string, separators: string, scan: Scan, found: Found, before: Found, buffer: seq<char>)
    requires NUL !in s && Reading(s, separators, |s|, scan, found, before, buffer)
    ensures IsRewritten(buffer, s, separators)
    ensures VectorIs(QueryVector(s), ScanEnd(scan, |s|))
    ensures Base64Is(QueryBase64(s), FindBlank(found, scan.state, |s|), before)
    ensures Texts(buffer, found.options) == QueryOptions(s)
  {
    EndVector(s, scan);
    EndBase64(s, scan, found, before);
    EndOptions(s, separators, found, buffer);
  }

  /** What the second pass finds in the rewritten buffer. */
  lemma EndElements(s: string, separators: string, buffer: seq<char>)
    requires NUL !in s && IsRewritten(buffer, s, separators) && QueryVector(s).Some?
    ensures QueryVector(s).value.a < QueryVector(s).value.b < |buffer|
    ensures TextsAt(buffer, RunStarts(buffer, QueryVector(s).value.a, QueryVector(s).value.b)) ==
      VectorTexts(s, separators)
    ensures RunStarts(buffer, QueryVector(s).value.a, QueryVector(s).value.b) != []
  {
    RewrittenHoldsVector(buffer, s, separators, QueryVector(s).value);
    ElementsMean(buffer, s, separators, QueryVector(s).value);
  }

  lemma NoVector(s: string, separators: string)
    requires QueryVector(s) == None
    ensures VectorTexts(s, separators) == []
  {
  }

  /** The base64 fields hold the rest of the last '#' word, or their old values. */
  ghost predicate Base64Holds(buffer: seq<char>, found: Found, before: Found, text: Option<string>) {
    if text.Some? then Base64Text(buffer, found) == text
    else found.base64 == before.base64 && found.base64Length == before.base64Length
  }

  lemma EndBase64Text(s: string, separators: string, buffer: seq<char>, found: Found, before: Found)
    requires IsRewritten(buffer, s, separators) && Base64Is(QueryBase64(s), found, before)
    ensures Base64Holds(buffer, found, before, QueryBase64Text(s))
  {
    if QueryBase64(s).Some? {
      Base64Of(buffer, s, separators, QueryBase64(s).value);
    }
  }

  lemma CopyIsHalf(buffer: seq<char>, query: string, separators: string)
    requires |buffer| == |query| + 1 && buffer == query + [NUL]
    ensures Half(buffer, Effective(query), separators, 0)
  {
    var s := Effective(query);
    forall j | 0 <= j < |s|
      ensures Untouched(buffer, s, j)
    {
      assert s[j] == query[j];
    }
  }

  /** The text the base64 fields point at. */
  function Base64Text(buffer: seq<char>, found: Found): Option<string> {
    if found.base64.Some? && found.base64.value + found.base64Length <= |buffer|
    then Some(buffer[found.base64.value..found.base64.value + found.base64Length])
    else None
  }

  /** The separators given, or the default one. */
  function SeparatorsOf(vectorSeparator: Option<string>): string {
    if vectorSeparator.Some? then vectorSeparator.value else "|"
  }

  // ----- the parser -----

  class QueryParser {
    var m_options: seq<Pointers>
    var m_vectorElements: seq<nat>
    var m_vectorBase64: Option<nat>
    var m_vectorBase64Length: nat
    var m_dataHolder: array<char>

    constructor ()
      ensures m_options == [] && m_vectorElements == [] && m_vectorBase64 == None && m_vectorBase64Length == 0
    {
      m_options, m_vectorElements := [], [];
      m_vectorBase64, m_vectorBase64Length := None, 0;
      m_dataHolder := new char[0];
    }

    ghost function Result(): Found
      reads this
    {
      Found(m_options, m_vectorBase64, m_vectorBase64Length)
    }

    method ReadBlank(iter: nat, scan: Scan) returns (next: Scan)
      requires iter < m_dataHolder.Length
      requires scan.state == VectorBase64 ==> m_vectorBase64.Some? && m_vectorBase64.value <= iter
      modifies this`m_vectorBase64Length, m_dataHolder
      ensures next == ScanBlank(scan, iter) && Result() == FindBlank(old(Result()), scan.state, iter)
      ensures m_dataHolder[..] == old(m_dataHolder[..])[iter := NUL]
    {
      m_dataHolder[iter] := NUL;
      next := scan;
      if scan.state == Vector {
        next := next.(estDimension := scan.estDimension + 1, vectorStrEnd := iter);
      } else if scan.state == VectorBase64 {
        m_vectorBase64Length := iter - m_vectorBase64.value;
      }
      next := next.(state := Nothing);
    }

    method ReadInWord(iter: nat, scan: Scan, separators: string) returns (next: Scan)
      requires iter < m_dataHolder.Length
      modifies this`m_options, this`m_vectorBase64, m_dataHolder
      ensures next == ScanChar(scan, old(m_dataHolder[iter]), iter, separators)
      ensures Result() == FindChar(old(Result()), scan, old(m_dataHolder[iter]), iter)
      ensures m_dataHolder[..] ==
        old(m_dataHolder[..])[iter := CharBecomes(scan.state, old(m_dataHolder[iter]), separators)]
    {
      next := scan;
      match scan.state {
        case Nothing =>
          if m_dataHolder[iter] == '$' {
            next := next.(state := OptionNameBegin);
          } else if m_dataHolder[iter] == '#' {
            next := next.(state := VectorBase64);
            m_vectorBase64 := Some(iter + 1);
          } else {
            next := next.(state := Vector, vectorStrBegin := Some(iter));
          }
        case OptionNameBegin =>
          next := next.(optionName := iter, state := OptionName);
        case OptionName =>
          if m_dataHolder[iter] == ':' || m_dataHolder[iter] == '=' {
            m_dataHolder[iter] := NUL;
            next := next.(state := OptionValueBegin);
          } else if IsUpper(m_dataHolder[iter]) {
            m_dataHolder[iter] := ToLower(m_dataHolder[iter]);
          }
        case OptionValueBegin =>
          next := next.(state := OptionValue);
          m_options := m_options + [Pointers(scan.optionName, iter)];
        case Vector =>
          if m_dataHolder[iter] in separators {
            next := next.(estDimension := scan.estDimension + 1);
            m_dataHolder[iter] := NUL;
          }
        case _ =>
      }
    }

    /** Over the characters that have been overwritten. */
    method SkipEnded(str: nat, end: nat) returns (next: nat)
      requires str <= end <= m_dataHolder.Length
      ensures str <= next <= end && (next < end ==> m_dataHolder[next] != NUL)
      ensures forall j :: str <= j < next ==> m_dataHolder[j] == NUL
    {
      next := str;
      while next < end && m_dataHolder[next] == NUL
        invariant str <= next <= end && forall j :: str <= j < next ==> m_dataHolder[j] == NUL
      {
        next := next + 1;
      }
    }

    /** Over the characters of a run. */
    method SkipRun(str: nat, end: nat) returns (next: nat)
      requires str < end <= m_dataHolder.Length && m_dataHolder[str] != NUL
      ensures str < next <= end && (next < end ==> m_dataHolder[next] == NUL)
      ensures forall j :: str <= j < next ==> m_dataHolder[j] != NUL
    {
      next := str;
      while next < end && m_dataHolder[next] != NUL
        invariant str <= next <= end && forall j :: str <= j < next ==> m_dataHolder[j] != NUL
      {
        next := next + 1;
      }
    }

    /** The second pass: the starts of the runs of non-NUL characters in `[begin, end)`. */
    method CollectElements(begin: nat, end: nat)
      requires begin < end <= m_dataHolder.Length && m_vectorElements == []
      modifies this`m_vectorElements
      ensures m_vectorElements == RunStarts(m_dataHolder[..], begin, end)
    {
      var str := begin;
      while str < end
        invariant begin <= str <= end && (str == begin || str == end || m_dataHolder[str] == NUL)
        invariant m_vectorElements == RunStarts(m_dataHolder[..], begin, str)
      {
        var start := SkipEnded(str, end);
        NoStarts(m_dataHolder[..], begin, str, start);
        if start >= end {
          break;
        }
        m_vectorElements := m_vectorElements + [start];
        str := SkipRun(start, end);
        OneStart(m_dataHolder[..], begin, start, str);
      }
    }

    /** One turn of the loop. */
    method ReadOne(iter: nat, scan: Scan, separators: string, ghost s: string, ghost before: Found) returns (next: Scan)
      requires NUL !in s && iter < |s| && Reading(s, separators, iter, scan, Result(), before, m_dataHolder[..])
      modifies this`m_options, this`m_vectorBase64, this`m_vectorBase64Length, m_dataHolder
      ensures Reading(s, separators, iter + 1, next, Result(), before, m_dataHolder[..])
    {
      ReadingHead(s, separators, iter, scan, Result(), before, m_dataHolder[..]);
      if IsSpace(m_dataHolder[iter]) {
        ReadingBlank(s, separators, iter, scan, Result(), before, m_dataHolder[..]);
        next := ReadBlank(iter, scan);
      } else {
        ReadingChar(s, separators, iter, scan, Result(), before, m_dataHolder[..]);
        next := ReadInWord(iter, scan, separators);
      }
    }

    /** The pass over the whole text. */
    method ReadAll(ghost s: string, separators: string) returns (iter: nat, scan: Scan)
      requires NUL !in s && Half(m_dataHolder[..], s, separators, 0) && m_options == []
      modifies this`m_options, this`m_vectorBase64, this`m_vectorBase64Length, m_dataHolder
      ensures iter == |s| && Reading(s, separators, iter, scan, Result(), old(Result()), m_dataHolder[..])
    {
      iter := 0;
      scan := Scan(Nothing, 0, None, 0, 0);
      ReadingHead(s, separators, iter, scan, Result(), Result(), m_dataHolder[..]);
      while m_dataHolder[iter] != NUL
        invariant Reading(s, separators, iter, scan, Result(), old(Result()), m_dataHolder[..])
        invariant iter <= |s| < m_dataHolder.Length
        invariant m_dataHolder[iter] == NUL <==> iter == |s|
        decreases |s| - iter
      {
        scan := ReadOne(iter, scan, separators, s, old(Result()));
        iter := iter + 1;
        ReadingHead(s, separators, iter, scan, Result(), old(Result()), m_dataHolder[..]);
      }
    }

    /** Closes the word the text ends in. */
    method CloseWord(iter: nat, scan: Scan) returns (last: Scan)
      requires scan.state == VectorBase64 ==> m_vectorBase64.Some? && m_vectorBase64.value <= iter
      modifies this`m_vectorBase64Length
      ensures last == ScanEnd(scan, iter) && Result() == FindBlank(old(Result()), scan.state, iter)
    {
      last := scan;
      if scan.state == Vector {
        last := last.(estDimension := scan.estDimension + 1, vectorStrEnd := iter);
      } else if scan.state == VectorBase64 {
        m_vectorBase64Length := iter - m_vectorBase64.value;
      }
    }

    method CollectVector(last: Scan, ghost s: string, ghost separators: string) returns (ok: bool)
      requires NUL !in s && m_vectorElements == [] && IsRewritten(m_dataHolder[..], s, separators)
      requires VectorIs(QueryVector(s), last)
      modifies this`m_vectorElements
      ensures ok && TextsAt(m_dataHolder[..], m_vectorElements) == VectorTexts(s, separators)
    {
      if last.vectorStrBegin == None || last.estDimension == 0 {
        NoVector(s, separators);
        return true;
      }
      EndElements(s, separators, m_dataHolder[..]);
      CollectElements(last.vectorStrBegin.value, last.vectorStrEnd);
      ok := m_vectorElements != [];
    }

    /** The data holder: the text and a closing NUL. */
    method Hold(query: string)
      modifies this`m_dataHolder
      ensures fresh(m_dataHolder) && m_dataHolder[..] == query + [NUL]
    {
      m_dataHolder := new char[|query| + 1](i => if 0 <= i < |query| then query[i] else NUL);
    }

    /** Everything up to the end of the text. */
    method ReadText(query: string, separators: string) returns (last: Scan)
      requires m_options == []
      modifies this`m_options, this`m_vectorBase64, this`m_vectorBase64Length, this`m_dataHolder
      ensures fresh(m_dataHolder) && IsRewritten(m_dataHolder[..], Effective(query), separators)
      ensures VectorIs(QueryVector(Effective(query)), last)
      ensures Texts(m_dataHolder[..], m_options) == QueryOptions(Effective(query))
      ensures Base64Holds(m_dataHolder[..], Result(), old(Result()), QueryBase64Text(Effective(query)))
    {
      Hold(query);
      ghost var s, before := Effective(query), Result();
      CopyIsHalf(m_dataHolder[..], query, separators);
      var iter, scan := ReadAll(s, separators);
      ReadingEnd(s, separators, scan, Result(), before, m_dataHolder[..]);
      ReadingHead(s, separators, iter, scan, Result(), before, m_dataHolder[..]);
      last := CloseWord(iter, scan);
      EndBase64Text(s, separators, m_dataHolder[..], Result(), before);
    }

    /**
      Parsing never fails. The pointers it leaves spell out what the words of the text say; only the base64 fields
      keep their old values when the text has no '#' word.
     */
    method Parse(query: string, vectorSeparator: Option<string>) returns (ok: bool)
      modifies this
      ensures ok && fresh(m_dataHolder)
      ensures Texts(m_dataHolder[..], m_options) == QueryOptions(Effective(query))
      ensures TextsAt(m_dataHolder[..], m_vectorElements) ==
        VectorTexts(Effective(query), if vectorSeparator.Some? then vectorSeparator.value else "|")
      ensures Base64Holds(m_dataHolder[..], Result(), old(Result()), QueryBase64Text(Effective(query)))
    {
      var separators := SeparatorsOf(vectorSeparator);
      m_vectorElements, m_options := [], [];
      ok := ParseWith(query, separators);
    }

    /** Both passes. */
    method ParseWith(query: string, separators: string) returns (ok: bool)
      requires m_vectorElements == [] && m_options == []
      modifies this
      ensures ok && fresh(m_dataHolder)
      ensures Texts(m_dataHolder[..], m_options) == QueryOptions(Effective(query))
      ensures TextsAt(m_dataHolder[..], m_vectorElements) == VectorTexts(Effective(query), separators)
      ensures Base64Holds(m_dataHolder[..], Result(), old(Result()), QueryBase64Text(Effective(query)))
    {
      var last := ReadText(query, separators);
      ok := CollectVector(last, Effective(query), separators);
    }
  }
}
