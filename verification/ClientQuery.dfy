/**
  `AnnClient`: the query text it prints from its stored parameters, which of them can be read back at all, and what the
  server reads out of the text.
 */
module ClientQuery {
  import opened Options
  import opened Bytes
  import opened QueryText
  import B = Base64

  datatype ValueType = Int8 | UInt8 | Int16 | Float | Undefined

  function TypeName(t: ValueType): string {
    match t
    case Int8 => "Int8"
    case UInt8 => "UInt8"
    case Int16 => "Int16"
    case Float => "Float"
    case Undefined => "Undefined"
  }

  /** `std::to_string`. */
  function DecimalNat(n: nat): string {
    if n < 10 then [('0' as int + n) as char] else DecimalNat(n / 10) + [('0' as int + n % 10) as char]
  }

  function Decimal(n: int): string {
    if n < 0 then "-" + DecimalNat(-n) else DecimalNat(n)
  }

  // ----- the printed text -----

  function PrintParam(p: Param): string {
    " $" + p.name + ":" + p.value
  }

  function PrintParams(params: seq<Param>): string {
    if params == [] then "" else PrintParams(params[..|params| - 1]) + PrintParam(params[|params| - 1])
  }

  function Printed(base64: string, params: seq<Param>): string {
    "#" + base64 + PrintParams(params)
  }

  /** The three options every query carries. */
  function FixedParams(valueType: ValueType, resultNum: int, extractMetadata: bool): seq<Param> {
    [Param("datatype", TypeName(valueType)), Param("resultnum", Decimal(resultNum)),
     Param("extractmetadata", if extractMetadata then "true" else "false")]
  }

  /** The parameters in the order in which the hash map is walked. */
  function Listed(order: seq<string>, params: map<string, string>): seq<Param>
    requires forall n :: 0 <= n < |order| ==> order[n] in params
  {
    if order == [] then []
    else Listed(order[..|order| - 1], params) + [Param(order[|order| - 1], params[order[|order| - 1]])]
  }

  // ----- which parameters survive -----

  /** No blank and no NUL: the text is one word. */
  ghost predicate Plain(s: string) {
    forall j :: 0 <= j < |s| ==> PlainChar(s[j])
  }

  predicate PlainChar(c: char) {
    !IsSpace(c) && c != NUL
  }

  /** Behind its first character a name holds no ':', no '=' and no upper-case letter. */
  ghost predicate NamePlain(name: string) {
    forall j :: 1 <= j < |name| ==> NameChar(name[j])
  }

  predicate NameChar(c: char) {
    !IsSep(c) && !IsUpper(c)
  }

  ghost predicate Clean(p: Param) {
    p.name != "" && p.value != "" && Plain(p.name) && Plain(p.value) && NamePlain(p.name)
  }

  ghost predicate AllClean(params: seq<Param>) {
    forall n :: 0 <= n < |params| ==> Clean(params[n])
  }

  // ----- a text grows by a word -----

  lemma {:induction false} WordsPrefix(s: string, t: string, i: nat)
    requires s <= t && i <= |s|
    ensures WordStart(t, i) == WordStart(s, i) && Words(t, i) == Words(s, i) && OpenWord(t, i) == OpenWord(s, i)
  {
    if i > 0 {
      WordsPrefix(s, t, i - 1);
    }
  }

  lemma {:induction false} OneWord(t: string, a: nat, i: nat)
    requires 0 < a <= i <= |t| && IsSpace(t[a - 1]) && forall j :: a <= j < i ==> !IsSpace(t[j])
    ensures WordStart(t, i) == a && Words(t, i) == Words(t, a)
  {
    if a < i {
      OneWord(t, a, i - 1);
    }
  }

  lemma AppendWord(s: string, w: string)
    requires w != "" && Plain(w)
    ensures AllWords(s + " " + w) == AllWords(s) + [Range(|s| + 1, |s| + 1 + |w|)]
  {
    var t, a := s + " " + w, |s| + 1;
    WordsPrefix(s, t, |s|);
    assert t[|s|] == ' ';
    forall j | a <= j < |t|
      ensures !IsSpace(t[j])
    {
      assert t[j] == w[j - a] && PlainChar(w[j - a]);
    }
    OneWord(t, a, |t|);
  }

  lemma {:induction false} SepSame(s: string, t: string, a: nat, b: nat)
    requires s <= t && a <= b <= |s|
    ensures Sep(t, a, b) == Sep(s, a, b)
    decreases b
  {
    if b > a + 2 {
      SepSame(s, t, a, b - 1);
    }
  }

  lemma WordOptionsSame(s: string, t: string, w: Range)
    requires s <= t && w.a < w.b <= |s|
    ensures WordOptions(t, w) == WordOptions(s, w)
  {
    SepSame(s, t, w.a, w.b);
    if HasOption(s, w) {
      SliceSame(s, t, w.a + 1, Sep(s, w.a, w.b));
      SliceSame(s, t, Sep(s, w.a, w.b) + 1, w.b);
    }
  }

  lemma SliceSame(s: string, t: string, i: nat, j: nat)
    requires s <= t && i <= j <= |s|
    ensures t[i..j] == s[i..j]
  {
  }

  lemma {:induction false} OptionTextsSame(s: string, t: string, words: seq<Range>)
    requires s <= t && InText(s, words) && InText(t, words)
    ensures OptionTexts(t, words) == OptionTexts(s, words)
    decreases |words|
  {
    if words != [] {
      OptionTextsSame(s, t, words[..|words| - 1]);
      WordOptionsSame(s, t, words[|words| - 1]);
    }
  }

  lemma {:induction false} LastWordSame(s: string, t: string, words: seq<Range>, kind: Kind)
    requires s <= t && InText(s, words) && InText(t, words)
    ensures LastWord(t, words, kind) == LastWord(s, words, kind)
    decreases |words|
  {
    if words != [] {
      LastWordSame(s, t, words[..|words| - 1], kind);
    }
  }

  /** What a new word adds to what the text says. */
  lemma AppendMeaning(s: string, w: string, t: string)
    requires w != "" && Plain(w) && t == s + " " + w
    ensures QueryOptions(t) == QueryOptions(s) + WordOptions(t, Range(|s| + 1, |t|))
    ensures w[0] == '$' ==> QueryBase64(t) == QueryBase64(s) && QueryVector(t) == QueryVector(s)
  {
    var all, r := AllWords(s), Range(|s| + 1, |t|);
    AppendWord(s, w);
    AllWordsInText(s);
    AllWordsInText(t);
    assert (all + [r])[..|all|] == all;
    AllStayIn(s, t, all);
    OptionTextsSame(s, t, all);
    LastWordSame(s, t, all, Base64Word);
    LastWordSame(s, t, all, VectorWord);
    assert t[r.a] == w[0];
  }

  lemma AllStayIn(s: string, t: string, words: seq<Range>)
    requires s <= t && InText(s, words)
    ensures InText(t, words)
  {
  }

  // ----- one printed option -----

  lemma {:induction false} SepIs(s: string, a: nat, b: nat, k: nat)
    requires a + 2 <= k < b <= |s| && IsSep(s[k]) && forall j :: a + 2 <= j < k ==> !IsSep(s[j])
    ensures Sep(s, a, b) == k
    decreases b
  {
    if k < b - 1 {
      SepIs(s, a, b - 1, k);
    } else {
      NoSep(s, a, k);
    }
  }

  lemma {:induction false} NoSep(s: string, a: nat, b: nat)
    requires a <= b <= |s| && forall j :: a + 2 <= j < b ==> !IsSep(s[j])
    ensures Sep(s, a, b) == b
    decreases b
  {
    if b > a + 2 {
      NoSep(s, a, b - 1);
    }
  }

  lemma {:induction false} LowerSame(s: string)
    requires forall j :: 0 <= j < |s| ==> !IsUpper(s[j])
    ensures LowerText(s) == s
    decreases |s|
  {
    if s != "" {
      LowerSame(s[..|s| - 1]);
    }
  }

  lemma NameSame(name: string)
    requires name != "" && NamePlain(name)
    ensures NameText(name) == name
  {
    forall j | 0 <= j < |name[1..]|
      ensures !IsUpper(name[1..][j])
    {
      assert NameChar(name[j + 1]);
    }
    LowerSame(name[1..]);
  }

  /** A clean option, printed as a word at `a`, is read back. */
  lemma CleanWord(t: string, a: nat, p: Param)
    requires Clean(p) && a + |p.name| + |p.value| + 2 == |t|
    requires t[a..] == ParamWord(p)
    ensures WordOptions(t, Range(a, |t|)) == [p]
  {
    var k := a + 1 + |p.name|;
    WordParts(t, a, p);
    forall j | a + 2 <= j < k
      ensures !IsSep(t[j])
    {
      assert t[j] == t[a + 1..k][j - a - 1] && NameChar(p.name[j - a - 1]);
    }
    SepIs(t, a, |t|, k);
    NameSame(p.name);
  }

  lemma WordParts(t: string, a: nat, p: Param)
    requires a + |p.name| + |p.value| + 2 == |t| && t[a..] == ParamWord(p)
    ensures var k := a + 1 + |p.name|; t[a] == '$' && t[k] == ':' && t[a + 1..k] == p.name && t[k + 1..|t|] == p.value
  {
    var k, w := a + 1 + |p.name|, t[a..];
    assert w == "$" + p.name + ":" + p.value;
    assert t[a] == w[0] && t[k] == w[1 + |p.name|];
    assert t[a + 1..k] == w[1..1 + |p.name|] == p.name;
    assert t[k + 1..|t|] == w[2 + |p.name|..] == p.value;
  }

  function ParamWord(p: Param): string {
    "$" + p.name + ":" + p.value
  }

  lemma ParamWordPlain(p: Param)
    requires Clean(p)
    ensures Plain(ParamWord(p))
  {
    var w := ParamWord(p);
    forall j | 0 <= j < |w|
      ensures PlainChar(w[j])
    {
      if 1 <= j <= |p.name| {
        assert PlainChar(p.name[j - 1]);
      } else if j > |p.name| + 1 {
        assert PlainChar(p.value[j - |p.name| - 2]);
      }
    }
  }

  lemma CleanParam(s: string, p: Param, t: string)
    requires Clean(p) && t == s + PrintParam(p)
    ensures QueryOptions(t) == QueryOptions(s) + [p]
    ensures QueryBase64(t) == QueryBase64(s) && QueryVector(t) == QueryVector(s)
  {
    PrintIsWord(s, p, t);
    ParamWordPlain(p);
    AppendMeaning(s, ParamWord(p), t);
    CleanWord(t, |s| + 1, p);
  }

  lemma PrintIsWord(s: string, p: Param, t: string)
    requires t == s + PrintParam(p)
    ensures t == s + " " + ParamWord(p) && t[|s| + 1..] == ParamWord(p)
    ensures ParamWord(p)[0] == '$' && |ParamWord(p)| == |p.name| + |p.value| + 2
  {
    assert PrintParam(p) == " " + ParamWord(p);
    assert t == s + " " + ParamWord(p);
    assert t[|s| + 1..] == ParamWord(p);
  }

  // ----- the whole query -----

  lemma {:induction false} EncodedPlain(data: seq<byte>, g: nat)
    ensures Plain(B.EncodedGroups(data, g))
  {
    if g > 0 {
      EncodedPlain(data, g - 1);
      var before := B.EncodedGroups(data, g - 1);
      forall j | 0 <= j < 4 * g
        ensures PlainChar(B.EncodedGroups(data, g)[j])
      {
        if j < 4 * (g - 1) {
          assert PlainChar(before[j]);
        } else {
          CharPlain(data, g - 1, j - 4 * (g - 1));
        }
      }
    }
  }

  lemma CharPlain(data: seq<byte>, g: nat, i: nat)
    requires i < 4
    ensures PlainChar(B.CharAt(data, g, i))
  {
  }

  /** The first word, alone. */
  lemma Base64Alone(base64: string)
    requires Plain(base64)
    ensures QueryOptions("#" + base64) == [] && QueryVector("#" + base64) == None
    ensures QueryBase64("#" + base64) == Some(Range(0, |base64| + 1))
  {
    var s := "#" + base64;
    forall j | 0 <= j < |s|
      ensures !IsSpace(s[j])
    {
      assert j > 0 ==> PlainChar(base64[j - 1]);
    }
    NoBlank(s, |s|);
    var r := Range(0, |s|);
    assert AllWords(s) == [r];
    AllWordsInText(s);
    OneWordMeaning(s, r);
  }

  lemma OneWordMeaning(s: string, r: Range)
    requires r.a < r.b <= |s| && s[r.a] == '#'
    ensures InText(s, [r]) && OptionTexts(s, [r]) == [] && LastWord(s, [r], VectorWord) == None
      && LastWord(s, [r], Base64Word) == Some(r)
  {
    assert [r][..0] == [];
  }

  lemma {:induction false} NoBlank(s: string, i: nat)
    requires i <= |s| && forall j :: 0 <= j < i ==> !IsSpace(s[j])
    ensures WordStart(s, i) == 0 && Words(s, i) == []
  {
    if i > 0 {
      NoBlank(s, i - 1);
    }
  }

  lemma PrintedStep(base64: string, params: seq<Param>)
    requires params != []
    ensures Printed(base64, params) == Printed(base64, params[..|params| - 1]) + PrintParam(params[|params| - 1])
  {
  }

  /** The text says exactly these options, and its vector is the rest of its first word. */
  ghost predicate ReadsAs(t: string, base64: string, params: seq<Param>) {
    QueryOptions(t) == params && QueryVector(t) == None && QueryBase64(t) == Some(Range(0, |base64| + 1))
  }

  lemma CleanStep(s: string, t: string, base64: string, params: seq<Param>, p: Param)
    requires ReadsAs(s, base64, params) && Clean(p) && t == s + PrintParam(p)
    ensures ReadsAs(t, base64, params + [p])
  {
    CleanParam(s, p, t);
  }

  lemma CleanNone(base64: string)
    requires Plain(base64)
    ensures ReadsAs(Printed(base64, []), base64, [])
  {
    Base64Alone(base64);
    assert Printed(base64, []) == "#" + base64;
  }

  lemma CleanMore(base64: string, before: seq<Param>, p: Param)
    requires ReadsAs(Printed(base64, before), base64, before) && Clean(p)
    ensures ReadsAs(Printed(base64, before + [p]), base64, before + [p])
  {
    PrintMore(base64, before, p, Printed(base64, before) + PrintParam(p));
    CleanStep(Printed(base64, before), Printed(base64, before + [p]), base64, before, p);
  }

  /** Clean options are read back in order, and leave the base64 word the last of its kind. */
  lemma {:induction false} CleanQuery(base64: string, params: seq<Param>)
    requires Plain(base64) && AllClean(params)
    ensures ReadsAs(Printed(base64, params), base64, params)
    decreases |params|
  {
    if params == [] {
      CleanNone(base64);
    } else {
      var before, p := params[..|params| - 1], params[|params| - 1];
      assert params == before + [p];
      assert AllClean(before) && Clean(p);
      CleanQuery(base64, before);
      CleanMore(base64, before, p);
    }
  }

  lemma {:induction false} PrintedWithoutNul(base64: string, params: seq<Param>)
    requires NUL !in base64 && forall n :: 0 <= n < |params| ==> NUL !in params[n].name && NUL !in params[n].value
    ensures NUL !in Printed(base64, params)
    decreases |params|
  {
    if params == [] {
      assert Printed(base64, []) == "#" + base64;
    } else {
      PrintedWithoutNul(base64, params[..|params| - 1]);
      PrintedStep(base64, params);
    }
  }

  lemma {:induction false} EffectiveWhole(s: string)
    requires NUL !in s
    ensures Effective(s) == s
  {
    if s != "" {
      EffectiveWhole(s[1..]);
    }
  }

  // ----- whatever is read is clean -----

  lemma {:induction false} LowerIsLower(s: string)
    requires forall j :: 0 <= j < |s| ==> PlainChar(s[j]) && !IsSep(s[j])
    ensures forall j :: 0 <= j < |s| ==> PlainChar(LowerText(s)[j]) && NameChar(LowerText(s)[j])
    decreases |s|
  {
    if s != "" {
      LowerIsLower(s[..|s| - 1]);
    }
  }

  lemma {:induction false} BeforeSep(s: string, a: nat, b: nat)
    requires a <= b <= |s|
    ensures forall j :: a + 2 <= j < Sep(s, a, b) ==> !IsSep(s[j])
    decreases b
  {
    if b > a + 2 {
      BeforeSep(s, a, b - 1);
    }
  }

  lemma ReadNameClean(s: string, p: nat, k: nat)
    requires p < k <= |s| && (forall j :: p <= j < k ==> PlainChar(s[j])) && forall j :: p + 1 <= j < k ==> !IsSep(s[j])
    ensures NameText(s[p..k]) != "" && Plain(NameText(s[p..k])) && NamePlain(NameText(s[p..k]))
  {
    assert s[p..k][1..] == s[p + 1..k];
    LowerIsLower(s[p + 1..k]);
  }

  lemma WordPlain(s: string, w: Range, j: nat)
    requires NUL !in s && IsWord(s, w) && w.a <= j < w.b
    ensures PlainChar(s[j])
  {
  }

  lemma ReadValueClean(s: string, w: Range, k: nat)
    requires NUL !in s && IsWord(s, w) && w.a <= k < w.b
    ensures s[k..w.b] != "" && Plain(s[k..w.b])
  {
    forall j | 0 <= j < w.b - k
      ensures PlainChar(s[k..w.b][j])
    {
      WordPlain(s, w, k + j);
    }
  }

  lemma ReadOptionClean(s: string, w: Range)
    requires NUL !in s && IsWord(s, w) && HasOption(s, w)
    ensures Clean(OptionText(s, w))
  {
    var k := Sep(s, w.a, w.b);
    BeforeSep(s, w.a, w.b);
    forall j | w.a + 1 <= j < k
      ensures PlainChar(s[j])
    {
      WordPlain(s, w, j);
    }
    ReadNameClean(s, w.a + 1, k);
    ReadValueClean(s, w, k + 1);
  }

  lemma {:induction false} ReadOptionsClean(s: string, words: seq<Range>)
    requires NUL !in s && AreWords(s, words) && InText(s, words)
    ensures AllClean(OptionTexts(s, words))
    decreases |words|
  {
    if words != [] {
      var n := |words| - 1;
      ReadOptionsClean(s, words[..n]);
      if HasOption(s, words[n]) {
        ReadOptionClean(s, words[n]);
      }
    }
  }

  /**
    The server reads back exactly the printed options, in order, if and only if every name and value is clean; and then
    it takes the bytes of the query, and nothing else, for the vector.
   */
  lemma QueryRoundTrip(data: seq<byte>, params: seq<Param>)
    ensures QueryOptions(Effective(Printed(B.Encoded(data), params))) == params <==> AllClean(params)
    ensures AllClean(params) ==> QueryVector(Effective(Printed(B.Encoded(data), params))) == None
    ensures AllClean(params) ==> QueryBase64Text(Effective(Printed(B.Encoded(data), params))) == Some(B.Encoded(data))
  {
    var base64 := B.Encoded(data);
    var text := Printed(base64, params);
    EncodedPlain(data, (|data| + 2) / 3);
    AllWordsAreWords(Effective(text));
    AllWordsInText(Effective(text));
    ReadOptionsClean(Effective(text), AllWords(Effective(text)));
    if AllClean(params) {
      forall n | 0 <= n < |params|
        ensures NUL !in params[n].name && NUL !in params[n].value
      {
        assert Clean(params[n]);
        NoNul(params[n].name);
        NoNul(params[n].value);
      }
      NoNul(base64);
      PrintedWithoutNul(base64, params);
      EffectiveWhole(text);
      CleanQuery(base64, params);
    }
  }

  lemma NoNul(s: string)
    requires Plain(s)
    ensures NUL !in s
  {
    forall j | 0 <= j < |s|
      ensures s[j] != NUL
    {
      assert PlainChar(s[j]);
    }
  }

  // ----- the client -----

  lemma {:induction false} DecimalDigits(n: nat)
    ensures DecimalNat(n) != "" && forall j :: 0 <= j < |DecimalNat(n)| ==> '0' <= DecimalNat(n)[j] <= '9'
  {
    if n >= 10 {
      DecimalDigits(n / 10);
    }
  }

  lemma FixedNamesClean()
    ensures Plain("datatype") && NamePlain("datatype")
    ensures Plain("resultnum") && NamePlain("resultnum")
    ensures Plain("extractmetadata") && NamePlain("extractmetadata")
  {
  }

  lemma TypeNamePlain(valueType: ValueType)
    ensures TypeName(valueType) != "" && Plain(TypeName(valueType))
  {
  }

  lemma FlagPlain()
    ensures Plain("true") && Plain("false")
  {
  }

  lemma DecimalPlain(n: int)
    ensures Decimal(n) != "" && Plain(Decimal(n))
  {
    DecimalDigits(if n < 0 then -n else n);
  }

  /** The options every query carries are clean. */
  lemma FixedClean(valueType: ValueType, resultNum: int, extractMetadata: bool)
    ensures AllClean(FixedParams(valueType, resultNum, extractMetadata))
  {
    FixedNamesClean();
    TypeNamePlain(valueType);
    DecimalPlain(resultNum);
    FlagPlain();
    ThreeClean(FixedParams(valueType, resultNum, extractMetadata));
  }

  lemma ThreeClean(p: seq<Param>)
    requires |p| == 3 && Clean(p[0]) && Clean(p[1]) && Clean(p[2])
    ensures AllClean(p)
  {
  }

  /** `ToLowerInPlace`. */
  method ToLowerInPlace(name: string) returns (lower: string)
    ensures lower == LowerText(name)
  {
    lower := "";
    for i := 0 to |name|
      invariant lower == LowerText(name[..i])
    {
      assert name[..i + 1][..i] == name[..i];
      lower := lower + [if IsUpper(name[i]) then (name[i] as int + 0x20) as char else name[i]];
    }
    assert name[..|name|] == name;
  }

  /** A stored parameter: a name in lower case and a value, neither empty. */
  ghost predicate Stored(params: map<string, string>) {
    forall name :: name in params ==> name != "" && LowerText(name) == name && params[name] != ""
  }

  lemma {:induction false} LowerTwice(s: string)
    ensures LowerText(LowerText(s)) == LowerText(s)
    decreases |s|
  {
    if s != "" {
      var l := LowerText(s[..|s| - 1]);
      LowerTwice(s[..|s| - 1]);
      assert (l + [ToLower(s[|s| - 1])])[..|l|] == l;
    }
  }

  lemma {:induction false} LowerAt(s: string, j: nat)
    requires j < |s|
    ensures LowerText(s)[j] == ToLower(s[j])
    decreases |s|
  {
    if j < |s| - 1 {
      LowerAt(s[..|s| - 1], j);
    }
  }

  /**
    What a caller can check of a parameter before setting it: no blanks, and no ':' or '=' behind the name's first
    character.
   */
  ghost predicate Printable(name: string, value: string) {
    Plain(name) && Plain(value) && forall j :: 1 <= j < |name| ==> !IsSep(name[j])
  }

  lemma StoredCleanIff(params: map<string, string>, name: string)
    requires Stored(params) && name in params
    ensures Clean(Param(name, params[name])) <==> Printable(name, params[name])
  {
    if Printable(name, params[name]) {
      forall j | 1 <= j < |name|
        ensures NameChar(name[j])
      {
        LowerAt(name, j);
      }
    } else if forall j :: 1 <= j < |name| ==> NameChar(name[j]) {
      assert forall j :: 1 <= j < |name| ==> !IsSep(name[j]);
    }
  }

  /** The hash map is walked in some order that names every key once. */
  ghost predicate Enumerates(order: seq<string>, params: map<string, string>) {
    && (forall n :: 0 <= n < |order| ==> order[n] in params)
    && (forall name :: name in params ==> name in order)
    && (forall m, n :: 0 <= m < n < |order| ==> order[m] != order[n])
  }

  lemma {:induction false} ListedAt(order: seq<string>, params: map<string, string>)
    requires forall n :: 0 <= n < |order| ==> order[n] in params
    ensures |Listed(order, params)| == |order|
    ensures forall n :: 0 <= n < |order| ==> Listed(order, params)[n] == Param(order[n], params[order[n]])
    decreases |order|
  {
    if order != [] {
      ListedAt(order[..|order| - 1], params);
    }
  }

  /** All options of a client's query are clean exactly when every parameter it holds is printable. */
  lemma ClientCleanIff(valueType: ValueType, resultNum: int, extractMetadata: bool, order: seq<string>,
      params: map<string, string>)
    requires Stored(params) && Enumerates(order, params)
    ensures AllClean(FixedParams(valueType, resultNum, extractMetadata) + Listed(order, params)) <==>
      forall name :: name in params ==> Printable(name, params[name])
  {
    var fixed, listed := FixedParams(valueType, resultNum, extractMetadata), Listed(order, params);
    FixedClean(valueType, resultNum, extractMetadata);
    ListedAt(order, params);
    forall name | name in params
      ensures Clean(Param(name, params[name])) <==> Printable(name, params[name])
    {
      StoredCleanIff(params, name);
    }
    if AllClean(fixed + listed) {
      forall name | name in params
        ensures Printable(name, params[name])
      {
        var n :| 0 <= n < |order| && order[n] == name;
        assert Clean((fixed + listed)[|fixed| + n]);
      }
    }
  }

  function ClientText(data: seq<byte>, valueType: ValueType, resultNum: int, extractMetadata: bool, order: seq<string>,
      params: map<string, string>): string
    requires forall n :: 0 <= n < |order| ==> order[n] in params
  {
    Printed(B.Encoded(data), FixedParams(valueType, resultNum, extractMetadata) + Listed(order, params))
  }

  /**
    Client to server: the options arrive as printed if and only if every stored parameter is printable; then no vector
    is spelled out, and the base64 text decodes to the client's bytes.
   */
  lemma ServerReads(data: seq<byte>, valueType: ValueType, resultNum: int, extractMetadata: bool, order: seq<string>,
      params: map<string, string>)
    requires Stored(params) && Enumerates(order, params) && data != []
    ensures QueryOptions(Effective(ClientText(data, valueType, resultNum, extractMetadata, order, params)))
        == FixedParams(valueType, resultNum, extractMetadata) + Listed(order, params)
      <==> forall name :: name in params ==> Printable(name, params[name])
    ensures (forall name :: name in params ==> Printable(name, params[name])) ==>
      var seen := Effective(ClientText(data, valueType, resultNum, extractMetadata, order, params));
      QueryVector(seen) == None && QueryBase64Text(seen).Some? && B.Decoded(QueryBase64Text(seen).value) == Some(data)
  {
    ClientCleanIff(valueType, resultNum, extractMetadata, order, params);
    QueryRoundTrip(data, FixedParams(valueType, resultNum, extractMetadata) + Listed(order, params));
    B.DecodeEncode(data);
  }

  /** A parameter called "a:b" does not arrive as it was set. */
  lemma ColonMisread(data: seq<byte>, valueType: ValueType, resultNum: int, extractMetadata: bool)
    requires data != []
    ensures var params := map["a:b" := "x"];
      var text := ClientText(data, valueType, resultNum, extractMetadata, ["a:b"], params);
      var given := FixedParams(valueType, resultNum, extractMetadata) + Listed(["a:b"], params);
      Stored(params) && QueryOptions(Effective(text)) != given
  {
    var params := map["a:b" := "x"];
    LowerSame("a:b");
    assert "a:b"[1] == ':';
    assert Enumerates(["a:b"], params) && !Printable("a:b", "x");
    ServerReads(data, valueType, resultNum, extractMetadata, ["a:b"], params);
  }

  class AnnClient {
    var m_params: map<string, string>

    ghost predicate Valid()
      reads this
    {
      Stored(m_params)
    }

    constructor ()
      ensures Valid() && m_params == map[]
    {
      m_params := map[];
    }

    /** An empty name changes nothing, an empty value drops the parameter, any other value replaces it. */
    method SetSearchParam(name: Option<string>, value: Option<string>)
      requires Valid()
      modifies this
      ensures Valid()
      ensures name == None || name.value == "" ==> m_params == old(m_params)
      ensures name != None && name.value != "" && (value == None || value.value == "") ==>
        m_params == old(m_params) - {LowerText(name.value)}
      ensures name != None && name.value != "" && value != None && value.value != "" ==>
        m_params == old(m_params)[LowerText(name.value) := value.value]
    {
      if name == None || name.value == "" {
        return;
      }
      var lower := ToLowerInPlace(name.value);
      LowerTwice(name.value);
      if value == None || value.value == "" {
        m_params := m_params - {lower};
        return;
      }
      m_params := m_params[lower := value.value];
    }

    method ClearSearchParam()
      modifies this
      ensures Valid() && m_params == map[]
    {
      m_params := map[];
    }

    /** One `out << " $" << name << ":" << value`. */
    method PrintOption(out: string, name: string, value: string, ghost base64: string, ghost printed: seq<Param>)
      returns (text: string)
      requires out == Printed(base64, printed)
      ensures text == Printed(base64, printed + [Param(name, value)])
    {
      text := out + (" $" + name + ":" + value);
      PrintMore(base64, printed, Param(name, value), text);
    }

    method PrintFixed(data: seq<byte>, resultNum: int, extractMetadata: bool, valueType: ValueType)
      returns (text: string)
      ensures text == Printed(B.Encoded(data), FixedParams(valueType, resultNum, extractMetadata))
    {
      ghost var base64, p := B.Encoded(data), FixedParams(valueType, resultNum, extractMetadata);
      var encLen;
      text, encLen := B.EncodeToStream(data, "#");
      PrintNone(base64);
      text := PrintOption(text, "datatype", TypeName(valueType), base64, []);
      text := PrintOption(text, "resultnum", Decimal(resultNum), base64, [] + [p[0]]);
      var flag := if extractMetadata then "true" else "false";
      text := PrintOption(text, "extractmetadata", flag, base64, [] + [p[0]] + [p[1]]);
      assert [] + [p[0]] + [p[1]] + [p[2]] == p;
    }

    /** The loop over the parameters. */
    method PrintStored(out: string, order: seq<string>, ghost base64: string, ghost fixed: seq<Param>)
      returns (text: string)
      requires (forall n :: 0 <= n < |order| ==> order[n] in m_params) && out == Printed(base64, fixed)
      ensures text == Printed(base64, fixed + Listed(order, m_params))
    {
      text := out;
      ghost var listed := [];
      assert fixed + listed == fixed;
      for n := 0 to |order|
        invariant text == Printed(base64, fixed + listed) && listed == Listed(order[..n], m_params)
      {
        ghost var p := Param(order[n], m_params[order[n]]);
        text := PrintOption(text, order[n], m_params[order[n]], base64, fixed + listed);
        ListedMore(order, m_params, n);
        Regroup(fixed, listed, p);
        listed := listed + [p];
      }
      assert order[..|order|] == order;
    }

    /** The query text. */
    method CreateSearchQuery(data: seq<byte>, resultNum: int, extractMetadata: bool, valueType: ValueType,
        order: seq<string>) returns (text: string)
      requires Valid() && Enumerates(order, m_params)
      ensures text == ClientText(data, valueType, resultNum, extractMetadata, order, m_params)
    {
      text := PrintFixed(data, resultNum, extractMetadata, valueType);
      text := PrintStored(text, order, B.Encoded(data), FixedParams(valueType, resultNum, extractMetadata));
    }
  }

  lemma Regroup(a: seq<Param>, b: seq<Param>, p: Param)
    ensures a + b + [p] == a + (b + [p])
  {
  }

  lemma ListedMore(order: seq<string>, params: map<string, string>, n: nat)
    requires n < |order| && forall m :: 0 <= m < |order| ==> order[m] in params
    ensures Listed(order[..n + 1], params) == Listed(order[..n], params) + [Param(order[n], params[order[n]])]
  {
    assert order[..n + 1][..n] == order[..n];
  }

  lemma PrintNone(base64: string)
    ensures Printed(base64, []) == "#" + base64
  {
  }

  lemma PrintMore(base64: string, params: seq<Param>, p: Param, text: string)
    requires text == Printed(base64, params) + PrintParam(p)
    ensures text == Printed(base64, params + [p])
  {
    assert (params + [p])[..|params|] == params;
    PrintedStep(base64, params + [p]);
  }
}
