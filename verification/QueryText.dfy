/** What a query text means: its words, and what each of them says. No buffer, no state machine. */
module QueryText {
  import opened Options

  const NUL: char := '\0'

  /** `std::isspace` in the C locale. */
  predicate IsSpace(c: char) {
    c == ' ' || '\t' <= c <= '\r'
  }

  predicate IsSep(c: char) {
    c == ':' || c == '='
  }

  predicate IsUpper(c: char) {
    'A' <= c <= 'Z'
  }

  /** `c | 0x20` for an upper-case letter. */
  function ToLower(c: char): (l: char)
    ensures !IsUpper(l) && (l == NUL <==> c == NUL) && (IsSpace(l) <==> IsSpace(c)) && (IsSep(l) <==> IsSep(c))
  {
    if IsUpper(c) then (c as int + 0x20) as char else c
  }

  /** The text as a C string: up to its first NUL. */
  function Effective(query: string): (s: string)
    ensures s <= query && NUL !in s
    ensures |s| < |query| ==> query[|s|] == NUL
  {
    if query == "" || query[0] == NUL then "" else [query[0]] + Effective(query[1..])
  }

  // ----- words -----

  /** Where the run of non-blanks that ends at `i` starts. */
  function WordStart(s: string, i: nat): (a: nat)
    requires i <= |s|
    ensures a <= i
  {
    if i == 0 || IsSpace(s[i - 1]) then i else WordStart(s, i - 1)
  }

  datatype Range = Range(a: nat, b: nat)

  /** The words closed by a blank within the first `i` characters. */
  function Words(s: string, i: nat): seq<Range>
    requires i <= |s|
  {
    if i == 0 then []
    else if IsSpace(s[i - 1]) then Words(s, i - 1) + OpenWord(s, i - 1)
    else Words(s, i - 1)
  }

  /** The word that has begun by `i` and is not closed yet. */
  function OpenWord(s: string, i: nat): seq<Range>
    requires i <= |s|
  {
    if WordStart(s, i) < i then [Range(WordStart(s, i), i)] else []
  }

  function AllWords(s: string): seq<Range> {
    Words(s, |s|) + OpenWord(s, |s|)
  }

  /** A maximal run of non-blanks. */
  ghost predicate IsWord(s: string, w: Range) {
    && w.a < w.b <= |s|
    && (forall j :: w.a <= j < w.b ==> !IsSpace(s[j]))
    && (w.a > 0 ==> IsSpace(s[w.a - 1]))
    && (w.b < |s| ==> IsSpace(s[w.b]))
  }

  ghost predicate AreWords(s: string, words: seq<Range>) {
    forall n :: 0 <= n < |words| ==> IsWord(s, words[n])
  }

  lemma {:induction false} WordStartFacts(s: string, i: nat)
    requires i <= |s|
    ensures forall j :: WordStart(s, i) <= j < i ==> !IsSpace(s[j])
    ensures WordStart(s, i) > 0 ==> IsSpace(s[WordStart(s, i) - 1])
  {
    if i > 0 && !IsSpace(s[i - 1]) {
      WordStartFacts(s, i - 1);
    }
  }

  lemma {:induction false} InsideWord(s: string, w: Range, j: nat)
    requires IsWord(s, w) && w.a <= j <= w.b
    ensures WordStart(s, j) == w.a
  {
    if j > w.a {
      InsideWord(s, w, j - 1);
    }
  }

  lemma {:induction false} WordsAreWords(s: string, i: nat)
    requires i <= |s|
    ensures AreWords(s, Words(s, i))
  {
    if i > 0 {
      WordsAreWords(s, i - 1);
      WordStartFacts(s, i - 1);
    }
  }

  /** Every word that is closed within the first `i` characters is listed. */
  lemma {:induction false} WordsComplete(s: string, i: nat, w: Range)
    requires i <= |s| && IsWord(s, w) && w.b < i
    ensures w in Words(s, i)
  {
    if w.b == i - 1 {
      InsideWord(s, w, w.b);
      assert OpenWord(s, i - 1) == [w];
    } else {
      WordsComplete(s, i - 1, w);
    }
  }

  ghost predicate InOrder(words: seq<Range>) {
    forall m, n :: 0 <= m < n < |words| ==> words[m].b < words[n].a
  }

  /** They are listed from left to right, with a blank behind each. */
  lemma {:induction false} WordsInOrder(s: string, i: nat)
    requires i <= |s|
    ensures InOrder(Words(s, i)) && forall n :: 0 <= n < |Words(s, i)| ==>
      Words(s, i)[n].b < i && IsSpace(s[Words(s, i)[n].b])
  {
    if i > 0 {
      WordsInOrder(s, i - 1);
      OpenBehind(s, i - 1);
    }
  }

  /** The open word starts behind all the closed ones. */
  lemma OpenBehind(s: string, i: nat)
    requires i <= |s| && forall n :: 0 <= n < |Words(s, i)| ==> Words(s, i)[n].b < i && IsSpace(s[Words(s, i)[n].b])
    ensures forall n :: 0 <= n < |Words(s, i)| ==> Words(s, i)[n].b < WordStart(s, i)
  {
    WordStartFacts(s, i);
  }

  /** The words of a text are exactly its maximal runs of non-blanks, from left to right. */
  lemma AllWordsAreWords(s: string)
    ensures AreWords(s, AllWords(s)) && InOrder(AllWords(s))
    ensures forall w :: w in AllWords(s) <==> IsWord(s, w)
  {
    WordsAreWords(s, |s|);
    WordStartFacts(s, |s|);
    WordsInOrder(s, |s|);
    OpenBehind(s, |s|);
    forall w
      ensures w in AllWords(s) <==> IsWord(s, w)
    {
      if IsWord(s, w) {
        if w.b < |s| {
          WordsComplete(s, |s|, w);
        } else {
          InsideWord(s, w, |s|);
          assert OpenWord(s, |s|) == [w];
        }
      }
    }
  }

  // ----- what a word says -----

  datatype Kind = OptionWord | Base64Word | VectorWord

  function KindOf(c: char): Kind {
    if c == '$' then OptionWord else if c == '#' then Base64Word else VectorWord
  }

  /** The first ':' or '=' in `[a + 2, b)`: never the first character of the name. `b` if there is none. */
  function Sep(s: string, a: nat, b: nat): (k: nat)
    requires a <= b <= |s|
    ensures k <= b && (k < b ==> a + 2 <= k && IsSep(s[k]))
    decreases b
  {
    if b <= a + 2 then b
    else
      var k := Sep(s, a, b - 1);
      if k < b - 1 || IsSep(s[b - 1]) then k else b
  }

  lemma {:induction false} SepPrefix(s: string, a: nat, b: nat, j: nat)
    requires a <= j <= b <= |s|
    ensures Sep(s, a, j) == if Sep(s, a, b) < j then Sep(s, a, b) else j
    decreases b
  {
    if j < b {
      SepPrefix(s, a, b - 1, j);
    }
  }

  /** Is there a separator and a value behind it? */
  predicate HasOption(s: string, w: Range)
    requires w.a < w.b <= |s|
  {
    s[w.a] == '$' && Sep(s, w.a, w.b) < w.b - 1
  }

  /** The name in lower case, but for its first character. */
  function NameText(name: string): string {
    if name == "" then "" else [name[0]] + LowerText(name[1..])
  }

  function LowerText(s: string): (l: string)
    ensures |l| == |s|
  {
    if s == "" then "" else LowerText(s[..|s| - 1]) + [ToLower(s[|s| - 1])]
  }

  datatype Param = Param(name: string, value: string)

  function OptionText(s: string, w: Range): Param
    requires w.a < w.b <= |s| && HasOption(s, w)
  {
    var k := Sep(s, w.a, w.b);
    Param(NameText(s[w.a + 1..k]), s[k + 1..w.b])
  }

  ghost predicate InText(s: string, words: seq<Range>) {
    forall n :: 0 <= n < |words| ==> words[n].a < words[n].b <= |s|
  }

  /** The options the words name, in order. */
  function OptionTexts(s: string, words: seq<Range>): seq<Param>
    requires InText(s, words)
  {
    if words == [] then []
    else
      var n := |words| - 1;
      OptionTexts(s, words[..n]) + WordOptions(s, words[n])
  }

  function WordOptions(s: string, w: Range): seq<Param>
    requires w.a < w.b <= |s|
  {
    if HasOption(s, w) then [OptionText(s, w)] else []
  }

  /** The last word of a kind. */
  function LastWord(s: string, words: seq<Range>, kind: Kind): (w: Option<Range>)
    requires InText(s, words)
    ensures w.Some? ==> w.value in words && KindOf(s[w.value.a]) == kind
  {
    if words == [] then None
    else
      var n := |words| - 1;
      if KindOf(s[words[n].a]) == kind then Some(words[n]) else LastWord(s, words[..n], kind)
  }

  /** Character `j` of a vector word ends a component; the first character never does. */
  predicate IsCut(s: string, separators: string, w: Range, j: nat)
    requires j < |s|
  {
    j > w.a && s[j] in separators
  }

  /** The non-empty components of a vector word, up to `e`. */
  function Pieces(s: string, separators: string, w: Range, e: nat): (ps: seq<string>)
    requires w.a <= e <= |s|
    ensures e > w.a && !IsCut(s, separators, w, e - 1) ==> ps != []
    decreases e
  {
    if e == w.a then []
    else if IsCut(s, separators, w, e - 1) then Pieces(s, separators, w, e - 1)
    else if e - 1 == w.a || IsCut(s, separators, w, e - 2) then Pieces(s, separators, w, e - 1) + [[s[e - 1]]]
    else Extended(Pieces(s, separators, w, e - 1), s[e - 1])
  }

  /** One more character at the end of the last string. */
  function Extended(ts: seq<string>, c: char): (r: seq<string>)
    requires ts != []
    ensures |r| == |ts|
  {
    ts[..|ts| - 1] + [ts[|ts| - 1] + [c]]
  }

  /** The options of the whole text. */
  function QueryOptions(s: string): seq<Param> {
    AllWordsInText(s);
    OptionTexts(s, AllWords(s))
  }

  /** The word whose rest is taken as base64. */
  function QueryBase64(s: string): (w: Option<Range>)
    ensures w.Some? ==> w.value in AllWords(s) && IsWord(s, w.value) && s[w.value.a] == '#'
  {
    AllWordsInText(s);
    AllWordsAreWords(s);
    LastWord(s, AllWords(s), Base64Word)
  }

  /** The rest of the last '#' word. */
  function QueryBase64Text(s: string): Option<string> {
    var w := QueryBase64(s);
    if w.Some? then Some(s[w.value.a + 1..w.value.b]) else None
  }

  /** The components of the vector the text spells out. */
  function VectorTexts(s: string, separators: string): seq<string> {
    var w := QueryVector(s);
    if w.Some? then Pieces(s, separators, w.value, w.value.b) else []
  }

  /** The word whose components are the vector: the last one that is neither option nor base64. */
  function QueryVector(s: string): (w: Option<Range>)
    ensures w.Some? ==> w.value in AllWords(s) && IsWord(s, w.value) && KindOf(s[w.value.a]) == VectorWord
  {
    AllWordsInText(s);
    AllWordsAreWords(s);
    LastWord(s, AllWords(s), VectorWord)
  }

  lemma AllWordsInText(s: string)
    ensures InText(s, AllWords(s))
    ensures forall i :: 0 <= i <= |s| ==> InText(s, Words(s, i))
  {
    AllWordsAreWords(s);
    forall i | 0 <= i <= |s|
      ensures InText(s, Words(s, i))
    {
      WordsAreWords(s, i);
    }
  }
}
