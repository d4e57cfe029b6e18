/** The parts of a query text, said without the recursions that find them. */
module QueryMeaning {
  import opened Options
  import opened QueryText

  // ----- characters -----

  /** A capital letter becomes the small letter at the same place of the alphabet; nothing else changes. */
  lemma LowerLaw(c: char)
    ensures 'A' <= c <= 'Z' ==> 'a' <= ToLower(c) <= 'z' && ToLower(c) as int - 'a' as int == c as int - 'A' as int
    ensures !('A' <= c <= 'Z') ==> ToLower(c) == c
  {
  }

  lemma BlankLaw(c: char)
    ensures IsSpace(c) <==> c as int in {9, 10, 11, 12, 13, 32}
  {
  }

  // ----- options -----

  /** The separator is the first ':' or '=' that is neither of the word's first two characters. */
  lemma {:induction false} SepLaw(s: string, a: nat, b: nat)
    requires a <= b <= |s|
    ensures forall j :: a + 2 <= j < Sep(s, a, b) ==> s[j] != ':' && s[j] != '='
    ensures Sep(s, a, b) < b ==> a + 2 <= Sep(s, a, b) && s[Sep(s, a, b)] in [':', '=']
    ensures Sep(s, a, b) <= b
    decreases b
  {
    if a + 2 < b {
      SepLaw(s, a, b - 1);
    }
  }

  lemma {:induction false} LowerTextLaw(s: string)
    ensures forall j :: 0 <= j < |s| ==> LowerText(s)[j] == ToLower(s[j])
  {
    if s != "" {
      LowerTextLaw(s[..|s| - 1]);
    }
  }

  /** Word `w` is an option: a '$', a name of at least one character, a separator and a value of at least one. */
  ghost predicate SaysOption(s: string, w: Range, k: nat, p: Param) {
    && IsWord(s, w) && s[w.a] == '$' && w.a + 2 <= k < w.b - 1 && s[k] in [':', '=']
    && (forall j :: w.a + 2 <= j < k ==> s[j] != ':' && s[j] != '=')
    && |p.name| == k - w.a - 1 && p.name[0] == s[w.a + 1]
    && (forall j :: 1 <= j < |p.name| ==> p.name[j] == ToLower(s[w.a + 1 + j]))
    && p.value == s[k + 1..w.b]
  }

  lemma NameLaw(name: string)
    requires name != ""
    ensures |NameText(name)| == |name| && NameText(name)[0] == name[0]
    ensures forall j :: 1 <= j < |name| ==> NameText(name)[j] == ToLower(name[j])
  {
    LowerTextLaw(name[1..]);
  }

  lemma OptionLaw(s: string, w: Range)
    requires IsWord(s, w) && HasOption(s, w)
    ensures SaysOption(s, w, Sep(s, w.a, w.b), OptionText(s, w))
  {
    var k := Sep(s, w.a, w.b);
    var name := s[w.a + 1..k];
    SepLaw(s, w.a, w.b);
    NameLaw(name);
    assert OptionText(s, w) == Param(NameText(name), s[k + 1..w.b]);
    assert forall j :: 0 <= j < |name| ==> name[j] == s[w.a + 1 + j];
  }

  lemma OptionIff(s: string, w: Range, k: nat, p: Param)
    requires IsWord(s, w)
    ensures SaysOption(s, w, k, p) ==> HasOption(s, w) && k == Sep(s, w.a, w.b) && p == OptionText(s, w)
  {
    if SaysOption(s, w, k, p) {
      SepLaw(s, w.a, w.b);
      assert HasOption(s, w);
      OptionLaw(s, w);
      assert p.name == OptionText(s, w).name;
    }
  }

  ghost predicate OptionOf(s: string, w: Range, p: Param) {
    exists k :: SaysOption(s, w, k, p)
  }

  ghost predicate AllOptions(s: string, words: seq<Range>, saying: seq<Range>, params: seq<Param>) {
    && |saying| == |params| && InOrder(saying)
    && (forall i :: 0 <= i < |saying| ==> saying[i] in words && OptionOf(s, saying[i], params[i]))
    && (forall w, p :: w in words && OptionOf(s, w, p) ==> w in saying)
  }

  lemma {:induction false} OptionsOf(s: string, words: seq<Range>) returns (saying: seq<Range>)
    requires AreWords(s, words) && InOrder(words) && InText(s, words)
    ensures AllOptions(s, words, saying, OptionTexts(s, words))
  {
    saying := [];
    if words != [] {
      var n := |words| - 1;
      saying := OptionsOf(s, words[..n]);
      assert words == words[..n] + [words[n]];
      if HasOption(s, words[n]) {
        saying := OneMoreOption(s, words[..n], words[n], saying, OptionTexts(s, words[..n]));
      } else {
        NoOption(s, words[..n], words[n], saying, OptionTexts(s, words[..n]));
      }
    }
  }

  lemma NoOption(s: string, words: seq<Range>, w: Range, saying: seq<Range>, params: seq<Param>)
    requires AllOptions(s, words, saying, params) && IsWord(s, w) && !HasOption(s, w)
    ensures AllOptions(s, words + [w], saying, params + [])
  {
    forall p
      ensures !OptionOf(s, w, p)
    {
      if k :| SaysOption(s, w, k, p) {
        OptionIff(s, w, k, p);
      }
    }
  }

  lemma OneMoreOption(s: string, words: seq<Range>, w: Range, before: seq<Range>, params: seq<Param>)
    returns (saying: seq<Range>)
    requires AllOptions(s, words, before, params) && IsWord(s, w) && HasOption(s, w) && InOrder(words + [w])
    ensures AllOptions(s, words + [w], saying, params + [OptionText(s, w)])
  {
    saying := before + [w];
    OptionLaw(s, w);
    assert OptionOf(s, w, OptionText(s, w));
    SayingInOrder(s, words + [w], before, w);
  }

  lemma SayingInOrder(s: string, words: seq<Range>, before: seq<Range>, w: Range)
    requires words != [] && InOrder(words) && w == words[|words| - 1] && InOrder(before)
    requires forall i :: 0 <= i < |before| ==> before[i] in words[..|words| - 1]
    ensures InOrder(before + [w])
  {
    forall i | 0 <= i < |before|
      ensures before[i].b < w.a
    {
      var m :| 0 <= m < |words| - 1 && words[m] == before[i];
    }
  }

  /** The options of a text are those its words say, from left to right, each once. */
  lemma QueryOptionsLaw(s: string) returns (saying: seq<Range>)
    ensures |saying| == |QueryOptions(s)| && InOrder(saying)
    ensures forall i :: 0 <= i < |saying| ==> OptionOf(s, saying[i], QueryOptions(s)[i])
    ensures forall w, p :: OptionOf(s, w, p) ==> w in saying
  {
    AllWordsInText(s);
    AllWordsAreWords(s);
    saying := OptionsOf(s, AllWords(s));
    forall w, p | OptionOf(s, w, p)
      ensures w in saying
    {
      assert w in AllWords(s);
    }
  }

  // ----- the last word of a kind -----

  lemma KindLaw(c: char)
    ensures KindOf(c) == Base64Word <==> c == '#'
    ensures KindOf(c) == VectorWord <==> c != '#' && c != '$'
  {
  }

  /** `w` is the last word of its kind. */
  ghost predicate LastOfKind(s: string, kind: Kind, w: Range) {
    IsWord(s, w) && KindOf(s[w.a]) == kind && forall v :: IsWord(s, v) && KindOf(s[v.a]) == kind ==> v.a <= w.a
  }

  ghost predicate LastAmong(s: string, words: seq<Range>, kind: Kind, last: Option<Range>)
    requires InText(s, words)
  {
    match last
    case None => forall n :: 0 <= n < |words| ==> KindOf(s[words[n].a]) != kind
    case Some(w) => exists m :: LastAt(s, words, kind, m) && words[m] == w
  }

  ghost predicate LastAt(s: string, words: seq<Range>, kind: Kind, m: int)
    requires InText(s, words)
  {
    && 0 <= m < |words| && KindOf(s[words[m].a]) == kind
    && forall n :: m < n < |words| ==> KindOf(s[words[n].a]) != kind
  }

  lemma {:induction false} LastWordLaw(s: string, words: seq<Range>, kind: Kind)
    requires InText(s, words)
    ensures LastAmong(s, words, kind, LastWord(s, words, kind))
  {
    if words != [] {
      var n := |words| - 1;
      LastWordLaw(s, words[..n], kind);
      if KindOf(s[words[n].a]) == kind {
        assert LastAt(s, words, kind, n);
      } else if LastWord(s, words[..n], kind).Some? {
        var m :| LastAt(s, words[..n], kind, m) && words[..n][m] == LastWord(s, words[..n], kind).value;
        LastAtMore(s, words, kind, m);
      }
    }
  }

  lemma LastAtMore(s: string, words: seq<Range>, kind: Kind, m: int)
    requires InText(s, words) && words != [] && KindOf(s[words[|words| - 1].a]) != kind
    requires LastAt(s, words[..|words| - 1], kind, m)
    ensures LastAt(s, words, kind, m)
  {
    forall i | m < i < |words|
      ensures KindOf(s[words[i].a]) != kind
    {
      assert i < |words| - 1 ==> words[..|words| - 1][i] == words[i];
    }
  }

  /** Of words in order, the last in the list is the one farthest to the right. */
  lemma LastIsRightmost(s: string, words: seq<Range>, kind: Kind, m: int, v: Range)
    requires InText(s, words) && InOrder(words) && LastAt(s, words, kind, m)
    requires v in words && KindOf(s[v.a]) == kind
    ensures v.a <= words[m].a && (v.a == words[m].a ==> v == words[m])
  {
    var n :| 0 <= n < |words| && words[n] == v;
    if n < m {
      assert words[n].b < words[m].a && words[n].a < words[n].b;
    }
  }

  lemma LastIsLast(s: string, kind: Kind, last: Range)
    requires InText(s, AllWords(s)) && LastAmong(s, AllWords(s), kind, Some(last))
    ensures forall w :: w == last <==> LastOfKind(s, kind, w)
  {
    var words := AllWords(s);
    AllWordsAreWords(s);
    var m :| LastAt(s, words, kind, m) && words[m] == last;
    forall v | IsWord(s, v) && KindOf(s[v.a]) == kind
      ensures v.a <= last.a && (v.a == last.a ==> v == last)
    {
      LastIsRightmost(s, words, kind, m, v);
    }
    assert last in words;
  }

  lemma NoneIsLast(s: string, kind: Kind)
    requires InText(s, AllWords(s)) && LastAmong(s, AllWords(s), kind, None)
    ensures forall w :: !LastOfKind(s, kind, w)
  {
    AllWordsAreWords(s);
    forall w | IsWord(s, w)
      ensures KindOf(s[w.a]) != kind
    {
      var n :| 0 <= n < |AllWords(s)| && AllWords(s)[n] == w;
    }
  }

  lemma LastOfAll(s: string, kind: Kind, last: Option<Range>)
    requires InText(s, AllWords(s)) && LastAmong(s, AllWords(s), kind, last)
    ensures forall w :: last == Some(w) <==> LastOfKind(s, kind, w)
  {
    if last.Some? {
      LastIsLast(s, kind, last.value);
    } else {
      NoneIsLast(s, kind);
    }
  }

  /** The base64 text is the rest of the last word that starts with '#'; the vector is the last that has no mark. */
  lemma LastWords(s: string)
    ensures forall w :: QueryBase64(s) == Some(w) <==> LastOfKind(s, Base64Word, w)
    ensures forall w :: QueryVector(s) == Some(w) <==> LastOfKind(s, VectorWord, w)
  {
    AllWordsInText(s);
    LastWordLaw(s, AllWords(s), Base64Word);
    LastWordLaw(s, AllWords(s), VectorWord);
    LastOfAll(s, Base64Word, QueryBase64(s));
    LastOfAll(s, VectorWord, QueryVector(s));
  }

  // ----- the components of the vector -----

  /** A maximal run of characters of `w` that end no component. */
  ghost predicate IsRun(s: string, separators: string, w: Range, e: nat, r: Range)
    requires e <= |s|
  {
    && w.a <= r.a < r.b <= e
    && (forall j :: r.a <= j < r.b ==> !IsCut(s, separators, w, j))
    && (r.a > w.a ==> IsCut(s, separators, w, r.a - 1))
    && (r.b < e ==> IsCut(s, separators, w, r.b))
  }

  /** `runs` are all of them, from left to right. */
  ghost predicate AreRuns(s: string, separators: string, w: Range, e: nat, runs: seq<Range>)
    requires e <= |s|
  {
    && (forall i :: 0 <= i < |runs| ==> IsRun(s, separators, w, e, runs[i]))
    && (forall i, j :: 0 <= i < j < |runs| ==> runs[i].b < runs[j].a)
    && (forall r :: IsRun(s, separators, w, e, r) ==> r in runs)
  }

  /** `pieces` are the texts of the runs. */
  ghost predicate Spell(s: string, runs: seq<Range>, pieces: seq<string>) {
    |pieces| == |runs| && forall i :: 0 <= i < |runs| ==> IsTextOf(s, runs[i], pieces[i])
  }

  ghost predicate IsTextOf(s: string, r: Range, piece: string) {
    r.a <= r.b <= |s| && piece == s[r.a..r.b]
  }

  /** The runs up to `e`. */
  lemma {:induction false} PiecesLaw(s: string, separators: string, w: Range, e: nat) returns (runs: seq<Range>)
    requires w.a <= e <= |s|
    ensures AreRuns(s, separators, w, e, runs) && Spell(s, runs, Pieces(s, separators, w, e))
    decreases e
  {
    runs := [];
    if e > w.a {
      var before := PiecesLaw(s, separators, w, e - 1);
      if IsCut(s, separators, w, e - 1) {
        runs := before;
        RunsAtCut(s, separators, w, e, before);
      } else if e - 1 == w.a || IsCut(s, separators, w, e - 2) {
        runs := before + [Range(e - 1, e)];
        RunBegins(s, separators, w, e, before);
        PieceBegins(s, separators, w, e, before);
      } else {
        assert before != [];
        LastTouches(s, separators, w, e, before);
        runs := before[..|before| - 1] + [Range(before[|before| - 1].a, e)];
        RunGrows(s, separators, w, e, before);
        PieceGrows(s, separators, w, e, before);
      }
    }
  }

  lemma RunsAtCut(s: string, separators: string, w: Range, e: nat, runs: seq<Range>)
    requires w.a < e <= |s| && IsCut(s, separators, w, e - 1) && AreRuns(s, separators, w, e - 1, runs)
    ensures AreRuns(s, separators, w, e, runs)
  {
    forall r | IsRun(s, separators, w, e, r)
      ensures r in runs
    {
      assert IsRun(s, separators, w, e - 1, r);
    }
  }

  lemma RunBegins(s: string, separators: string, w: Range, e: nat, runs: seq<Range>)
    requires w.a < e <= |s| && !IsCut(s, separators, w, e - 1) && (e - 1 == w.a || IsCut(s, separators, w, e - 2))
    requires AreRuns(s, separators, w, e - 1, runs)
    ensures AreRuns(s, separators, w, e, runs + [Range(e - 1, e)])
  {
    forall i | 0 <= i < |runs|
      ensures runs[i].b < e - 1
    {
      assert IsRun(s, separators, w, e - 1, runs[i]);
    }
    forall r | IsRun(s, separators, w, e, r)
      ensures r == Range(e - 1, e) || r in runs
    {
      assert r.b < e ==> IsRun(s, separators, w, e - 1, r);
    }
  }

  /** The last run takes in one more character. */
  lemma RunGrows(s: string, separators: string, w: Range, e: nat, runs: seq<Range>)
    requires w.a + 1 < e <= |s| && !IsCut(s, separators, w, e - 1) && !IsCut(s, separators, w, e - 2) && runs != []
    requires AreRuns(s, separators, w, e - 1, runs) && runs[|runs| - 1].b == e - 1
    ensures AreRuns(s, separators, w, e, runs[..|runs| - 1] + [Range(runs[|runs| - 1].a, e)])
  {
    var n, last := |runs| - 1, runs[|runs| - 1];
    assert IsRun(s, separators, w, e - 1, last);
    forall i | 0 <= i < n
      ensures IsRun(s, separators, w, e, runs[i])
    {
      assert IsRun(s, separators, w, e - 1, runs[i]) && runs[i].b < last.a;
    }
    forall r | IsRun(s, separators, w, e, r)
      ensures r == Range(last.a, e) || r in runs[..n]
    {
      OldRun(s, separators, w, e, runs, r);
    }
  }

  /** When the last run grows, no other run begins or ends. */
  lemma OldRun(s: string, separators: string, w: Range, e: nat, runs: seq<Range>, r: Range)
    requires w.a + 1 < e <= |s| && !IsCut(s, separators, w, e - 1) && !IsCut(s, separators, w, e - 2) && runs != []
    requires AreRuns(s, separators, w, e - 1, runs)
    requires runs[|runs| - 1].b == e - 1 && IsRun(s, separators, w, e, r)
    ensures r == Range(runs[|runs| - 1].a, e) || r in runs[..|runs| - 1]
  {
    if r.b < e {
      assert IsCut(s, separators, w, r.b);
      assert IsRun(s, separators, w, e - 1, r);
    } else {
      assert r.a < e - 1;
      SameRun(s, separators, w, e - 1, Range(r.a, e - 1), runs[|runs| - 1]);
    }
  }

  lemma PieceBegins(s: string, separators: string, w: Range, e: nat, runs: seq<Range>)
    requires w.a < e <= |s| && !IsCut(s, separators, w, e - 1) && (e - 1 == w.a || IsCut(s, separators, w, e - 2))
    requires Spell(s, runs, Pieces(s, separators, w, e - 1))
    ensures Spell(s, runs + [Range(e - 1, e)], Pieces(s, separators, w, e))
  {
    assert IsTextOf(s, Range(e - 1, e), [s[e - 1]]);
  }

  lemma PieceGrows(s: string, separators: string, w: Range, e: nat, runs: seq<Range>)
    requires w.a + 1 < e <= |s| && !IsCut(s, separators, w, e - 1) && !IsCut(s, separators, w, e - 2) && runs != []
    requires Spell(s, runs, Pieces(s, separators, w, e - 1)) && runs[|runs| - 1].b == e - 1
    ensures Spell(s, runs[..|runs| - 1] + [Range(runs[|runs| - 1].a, e)], Pieces(s, separators, w, e))
  {
    SpellGrows(s, runs, Pieces(s, separators, w, e - 1), e);
  }

  lemma SpellGrows(s: string, runs: seq<Range>, pieces: seq<string>, e: nat)
    requires 0 < e <= |s| && runs != [] && runs[|runs| - 1].b == e - 1 && Spell(s, runs, pieces)
    ensures Spell(s, runs[..|runs| - 1] + [Range(runs[|runs| - 1].a, e)], Extended(pieces, s[e - 1]))
  {
    var n := |runs| - 1;
    var longer := Extended(pieces, s[e - 1]);
    assert IsTextOf(s, runs[n], pieces[n]);
    assert longer[n] == s[runs[n].a..e];
    forall i | 0 <= i < n
      ensures IsTextOf(s, runs[i], longer[i])
    {
      assert IsTextOf(s, runs[i], pieces[i]) && longer[i] == pieces[i];
    }
  }

  lemma SameRun(s: string, separators: string, w: Range, e: nat, q: Range, r: Range)
    requires e <= |s| && IsRun(s, separators, w, e, q) && IsRun(s, separators, w, e, r) && q.b == r.b
    ensures q == r
  {
  }

  /** The last run reaches up to a character that is no cut. */
  lemma LastTouches(s: string, separators: string, w: Range, e: nat, runs: seq<Range>)
    requires w.a + 1 < e <= |s| && !IsCut(s, separators, w, e - 2) && runs != []
    requires AreRuns(s, separators, w, e - 1, runs)
    ensures runs[|runs| - 1].b == e - 1
  {
    var a := RunTo(s, separators, w, e - 1);
    assert Range(a, e - 1) in runs;
    assert IsRun(s, separators, w, e - 1, runs[|runs| - 1]);
  }

  lemma {:induction false} RunTo(s: string, separators: string, w: Range, e: nat) returns (a: nat)
    requires w.a < e <= |s| && !IsCut(s, separators, w, e - 1)
    ensures IsRun(s, separators, w, e, Range(a, e))
    decreases e
  {
    a := e - 1;
    if e - 1 > w.a && !IsCut(s, separators, w, e - 2) {
      a := RunTo(s, separators, w, e - 1);
    }
  }

  /** The components of the vector are the runs between separators of its word; no first character separates. */
  lemma VectorLaw(s: string, separators: string) returns (runs: seq<Range>)
    ensures QueryVector(s) == None ==> VectorTexts(s, separators) == []
    ensures QueryVector(s).Some? ==>
      && AreRuns(s, separators, QueryVector(s).value, QueryVector(s).value.b, runs)
      && Spell(s, runs, VectorTexts(s, separators))
  {
    runs := [];
    if QueryVector(s).Some? {
      var w := QueryVector(s).value;
      runs := PiecesLaw(s, separators, w, w.b);
    }
  }
}
