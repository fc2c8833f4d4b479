/**
 The clause parser: `parse_value`, `parse_where`, `parse_set` and
 `parse_where_simple`. Each returns None where the source prints an error and
 returns None, including where it catches an exception.
 */
module Parser {
  import opened Wrappers
  import opened Text
  import opened Values
  import CommaSplit

  /** `shlex.split`, left abstract: None stands for the ValueError it raises
      on an unbalanced quote. */
  type Tokenizer = string -> Option<seq<string>>

  /** One `field = value` assignment. */
  datatype Clause = Clause(field: string, value: Value)

  predicate IsBoolWord(t: string) {
    Lower(t) == "true" || Lower(t) == "false"
  }

  /** All digits, or a minus sign followed by all digits. */
  predicate IsIntLiteral(t: string) {
    IsDecimal(t) || (|t| > 0 && t[0] == '-' && IsDecimal(t[1..]))
  }

  /** `int(t)` on an integer literal. */
  function IntLiteralValue(t: string): (r: int)
    requires IsIntLiteral(t)
    ensures IsDecimal(t) ==> r >= 0
    ensures t[0] == '-' ==> r <= 0
  {
    if IsDecimal(t) then DecimalValue(t) else -(DecimalValue(t[1..]) as int)
  }

  /** `parse_value`: a bool for `true`/`false` in any case, an int for an
      integer literal, else the trimmed text. None is the IndexError the source
      raises reading the first character of a token that is empty after trimming. */
  function ParseValue(s: string): (r: Option<Value>)
    ensures r.None? <==> AllSpace(s)
    ensures (r.Some? && r.value.Bool?) <==> IsBoolWord(Strip(s))
    ensures r.Some? && r.value.Bool? ==> (r.value.b <==> Lower(Strip(s)) == "true")
    ensures (r.Some? && r.value.Int?) <==> !IsBoolWord(Strip(s)) && IsIntLiteral(Strip(s))
    ensures r.Some? && r.value.Int? ==> r.value.i == IntLiteralValue(Strip(s))
    ensures r.Some? && r.value.Str? ==> r.value.s == Strip(s) && r.value.s != []
  {
    var t := Strip(s);
    var low := Lower(t);
    if low == "true" || low == "false" then Some(Bool(low == "true"))
    else if IsDecimal(t) then Some(Int(DecimalValue(t)))
    else if t == [] then None
    else if t[0] == '-' && IsDecimal(t[1..]) then Some(Int(-(DecimalValue(t[1..]) as int)))
    else Some(Str(t))
  }

  /** `parse_value` trims first, so surrounding whitespace never matters. */
  lemma ParseValueTrims(s: string)
    ensures ParseValue(s) == ParseValue(Strip(s))
  {
    StripIdempotent(s);
  }

  /** The text Python's `str()` gives for a value. */
  function Render(v: Value): string {
    match v
    case Bool(b) => if b then "True" else "False"
    case Int(i) => FormatInt(i)
    case Str(s) => s
  }

  /** A value that survives printing and re-parsing: every bool and int, and
      text that is already trimmed, non-empty and not itself a bool or int literal. */
  predicate Canonical(v: Value) {
    v.Str? ==> Strip(v.s) == v.s && v.s != [] && !IsBoolWord(v.s) && !IsIntLiteral(v.s)
  }

  lemma NotBoolWord(t: string)
    requires t != [] && (IsDigit(t[0]) || t[0] == '-')
    ensures !IsBoolWord(t)
  {
    assert Lower(t)[0] == t[0];
  }

  /** `str(i)` is an integer literal denoting `i`. */
  lemma FormatIntIsLiteral(i: int)
    ensures IsIntLiteral(FormatInt(i)) && IntLiteralValue(FormatInt(i)) == i
  {
    if i < 0 {
      var t := FormatInt(i);
      assert t[1..] == FormatNat(-i);
    }
  }

  /** An integer literal as `str()` would print it: no leading zero, and no
      minus sign in front of a zero. */
  predicate CanonicalLiteral(t: string) {
    || (IsDecimal(t) && (|t| == 1 || t[0] != '0'))
    || (|t| > 1 && t[0] == '-' && IsDecimal(t[1..]) && t[1] != '0')
  }

  /** Round trip the other way: a canonical literal is what `str()` prints
      for the int it denotes. */
  lemma IntLiteralRender(t: string)
    requires CanonicalLiteral(t)
    ensures IsIntLiteral(t) && FormatInt(IntLiteralValue(t)) == t
  {
    if IsDecimal(t) {
      FormatDecimal(t);
    } else {
      var u := t[1..];
      assert u[0] == t[1];
      FormatDecimal(u);
      DecimalValueAtLeastLead(u);
      assert t == "-" + u;
    }
  }

  lemma ParseRenderInt(i: int)
    ensures ParseValue(FormatInt(i)) == Some(Int(i))
  {
    var t := FormatInt(i);
    StripFixed(t);
    NotBoolWord(t);
    FormatIntIsLiteral(i);
  }

  lemma ParseRenderBool(b: bool)
    ensures ParseValue(Render(Bool(b))) == Some(Bool(b))
  {
    var t := Render(Bool(b));
    StripFixed(t);
    if b {
      assert Lower(t) == "true";
    } else {
      assert Lower(t) == "false";
    }
  }

  /** Round trip: parsing what `str()` prints gives the value back. */
  lemma ParseRender(v: Value)
    requires Canonical(v)
    ensures ParseValue(Render(v)) == Some(v)
  {
    match v
    case Bool(b) => ParseRenderBool(b);
    case Int(i) => ParseRenderInt(i);
    case Str(s) =>
  }

  predicate IsAssignmentShape(tokens: seq<string>) {
    |tokens| == 3 && tokens[1] == "="
  }

  /** The shared three-token check: `field = value` with a parsable value. */
  function ParseClause(tokenize: Tokenizer, text: string): (r: Option<Clause>)
    ensures r.Some? <==>
      && tokenize(text).Some?
      && IsAssignmentShape(tokenize(text).value)
      && !AllSpace(tokenize(text).value[2])
    ensures r.Some? ==>
      && r.value.field == tokenize(text).value[0]
      && ParseValue(tokenize(text).value[2]) == Some(r.value.value)
  {
    match tokenize(text)
    case None => None
    case Some(tokens) =>
      if !IsAssignmentShape(tokens) then None
      else match ParseValue(tokens[2])
        case None => None
        case Some(v) => Some(Clause(tokens[0], v))
  }

  /** `parse_where`: exactly `field = value`, giving a one-entry map. */
  function ParseWhere(tokenize: Tokenizer, text: string): (r: Option<map<string, Value>>)
    ensures text == [] ==> r.None?
    ensures tokenize(text).None? ==> r.None?
    ensures tokenize(text).Some? && |tokenize(text).value| != 3 ==> r.None?
    ensures tokenize(text).Some? && |tokenize(text).value| == 3 && tokenize(text).value[1] != "=" ==> r.None?
    ensures r.Some? ==>
      var tokens := tokenize(text).value;
      && IsAssignmentShape(tokens)
      && r.value.Keys == {tokens[0]}
      && ParseValue(tokens[2]) == Some(r.value[tokens[0]])
    ensures r.Some? <==>
      && text != []
      && tokenize(text).Some?
      && IsAssignmentShape(tokenize(text).value)
      && !AllSpace(tokenize(text).value[2])
  {
    if text == [] then None
    else match ParseClause(tokenize, text)
      case None => None
      case Some(c) => Some(map[c.field := c.value])
  }

  /** `f` applied to every element, or None as soon as one application fails. */
  function AllOrNothing<A, B>(f: A -> Option<B>, xs: seq<A>): (r: Option<seq<B>>)
    ensures r.Some? <==> forall k :: 0 <= k < |xs| ==> f(xs[k]).Some?
    ensures r.Some? ==> |r.value| == |xs|
    ensures r.Some? ==> forall k :: 0 <= k < |xs| ==> Some(r.value[k]) == f(xs[k])
  {
    if xs == [] then Some([])
    else match f(xs[0])
      case None => None
      case Some(y) =>
        match AllOrNothing(f, xs[1..])
        case None =>
          assert exists k :: 1 <= k < |xs| && f(xs[k]).None? by {
            var j :| 0 <= j < |xs[1..]| && f(xs[1..][j]).None?;
            assert xs[j + 1] == xs[1..][j];
          }
          None
        case Some(ys) =>
          var r := [y] + ys;
          assert forall k :: 1 <= k < |xs| ==> r[k] == ys[k - 1] && xs[k] == xs[1..][k - 1];
          Some(r)
  }

  /** The clauses of all parts, or None as soon as one part fails. */
  function ParseClauses(tokenize: Tokenizer, parts: seq<string>): (r: Option<seq<Clause>>)
    ensures r.Some? <==> forall k :: 0 <= k < |parts| ==> ParseClause(tokenize, parts[k]).Some?
    ensures r.Some? ==> |r.value| == |parts|
    ensures r.Some? ==> forall k :: 0 <= k < |parts| ==> Some(r.value[k]) == ParseClause(tokenize, parts[k])
  {
    AllOrNothing(part => ParseClause(tokenize, part), parts)
  }

  /** Clause `k` is the last one that names its field. */
  predicate IsLastFor(cs: seq<Clause>, k: int)
    requires 0 <= k < |cs|
  {
    forall j :: k < j < |cs| ==> cs[j].field != cs[k].field
  }

  function Fields(cs: seq<Clause>): set<string> {
    set k | 0 <= k < |cs| :: cs[k].field
  }

  lemma FieldsSnoc(cs: seq<Clause>)
    requires cs != []
    ensures Fields(cs) == Fields(cs[..|cs| - 1]) + {cs[|cs| - 1].field}
  {
    var init := cs[..|cs| - 1];
    forall f | f in Fields(cs)
      ensures f in Fields(init) || f == cs[|cs| - 1].field
    {
      var k :| 0 <= k < |cs| && cs[k].field == f;
      if k < |init| {
        assert init[k].field == f;
      }
    }
    forall f | f in Fields(init)
      ensures f in Fields(cs)
    {
      var k :| 0 <= k < |init| && init[k].field == f;
      assert cs[k].field == f;
    }
  }

  /** The assignments applied in order to an empty map: every field is a key,
      and a later clause for the same field overwrites an earlier one. */
  function Assign(cs: seq<Clause>): (m: map<string, Value>)
    ensures m.Keys == Fields(cs)
    ensures forall k :: 0 <= k < |cs| && IsLastFor(cs, k) ==> m[cs[k].field] == cs[k].value
  {
    if cs == [] then map[]
    else
      var init := cs[..|cs| - 1];
      var last := cs[|cs| - 1];
      var m := Assign(init)[last.field := last.value];
      FieldsSnoc(cs);
      assert forall k :: 0 <= k < |cs| - 1 && IsLastFor(cs, k) ==> IsLastFor(init, k) by {
        assert forall k :: 0 <= k < |init| ==> init[k] == cs[k];
      }
      m
  }

  lemma AssignNonEmpty(cs: seq<Clause>)
    requires cs != []
    ensures |Assign(cs)| >= 1
  {
    assert cs[0].field in Assign(cs);
  }

  /** `parse_set`: every comma-separated part must be `field = value`, or the
      whole result is None. */
  function ParseSet(tokenize: Tokenizer, text: string): (r: Option<map<string, Value>>)
    ensures text == [] ==> r.None?
    ensures var parts := CommaSplit.SplitByCommas(text);
      r.Some? <==> text != [] && forall k :: 0 <= k < |parts| ==> ParseClause(tokenize, parts[k]).Some?
    ensures r.Some? ==>
      var clauses := ParseClauses(tokenize, CommaSplit.SplitByCommas(text)).value;
      && r.value.Keys == Fields(clauses)
      && |r.value| >= 1
  {
    if text == [] then None
    else
      var parts := CommaSplit.SplitByCommas(text);
      match ParseClauses(tokenize, parts)
      case None => None
      case Some(cs) =>
        CommaSplit.SplitByCommasNonEmpty(text);
        AssignNonEmpty(cs);
        Some(Assign(cs))
  }

  /** A later clause for a field overwrites an earlier one: on success the value
      of each field is the one given by the last part that names it. */
  lemma ParseSetLastWins(tokenize: Tokenizer, text: string, k: int)
    requires ParseSet(tokenize, text).Some?
    requires 0 <= k < |CommaSplit.SplitByCommas(text)|
    ensures var parts := CommaSplit.SplitByCommas(text);
      var cs := ParseClauses(tokenize, parts).value;
      IsLastFor(cs, k) ==> ParseSet(tokenize, text).value[cs[k].field] == cs[k].value
  {
  }

  /** Position of the first `c` in `s` (`str.split(c, 1)` cuts there). */
  function IndexOf(s: string, c: char): (i: nat)
    requires c in s
    ensures i < |s| && s[i] == c && c !in s[..i]
  {
    if s[0] == c then 0
    else
      assert c in s[1..] by {
        var j :| 0 <= j < |s| && s[j] == c;
        assert s[1..][j - 1] == c;
      }
      var i := 1 + IndexOf(s[1..], c);
      assert s[..i] == [s[0]] + s[1..][..i - 1];
      i
  }

  /** `parse_where_simple`: cut at the first `=`, trim both sides. */
  function ParseWhereSimple(text: string): (r: Option<map<string, Value>>)
    ensures '=' !in text ==> r.None?
    ensures r.Some? <==> '=' in text && !AllSpace(text[IndexOf(text, '=') + 1..])
    ensures r.Some? ==>
      var i := IndexOf(text, '=');
      && r.value.Keys == {Strip(text[..i])}
      && ParseValue(text[i + 1..]) == Some(r.value[Strip(text[..i])])
  {
    if text == [] || '=' !in text then None
    else
      var i := IndexOf(text, '=');
      var field := Strip(text[..i]);
      // The source strips the value before `parse_value` strips it again;
      // one strip is the same (ParseValueTrims).
      match ParseValue(text[i + 1..])
      case None => None
      case Some(v) => Some(map[field := v])
  }

  /** Only the first `=` separates: the value part may hold more of them. */
  lemma SimpleCutsAtFirstEquals(field: string, value: string)
    requires '=' !in field && !AllSpace(value)
    ensures ParseWhereSimple(field + "=" + value) == Some(map[Strip(field) := ParseValue(value).value])
  {
    var text := field + "=" + value;
    assert text[|field|] == '=';
    assert text[..|field|] == field;
    assert IndexOf(text, '=') == |field|;
    assert text[|field| + 1..] == value;
  }

  /** The characters `shlex` treats as token separators. */
  predicate IsBlank(c: char) {
    c == ' ' || c == '\t' || c == '\r' || c == '\n'
  }

  /** The leading run of non-blank characters of `s`. */
  function Word(s: string): (w: string)
    requires s != [] && !IsBlank(s[0])
    ensures 0 < |w| <= |s| && w == s[..|w|]
    ensures forall k :: 0 <= k < |w| ==> !IsBlank(w[k])
    ensures |w| == |s| || IsBlank(s[|w|])
  {
    if |s| == 1 || IsBlank(s[1]) then [s[0]]
    else
      var w := [s[0]] + Word(s[1..]);
      assert w == s[..|w|];
      w
  }

  /** Maximal runs of non-blank characters. */
  function Words(s: string): seq<string>
    decreases |s|
  {
    if s == [] then []
    else if IsBlank(s[0]) then Words(s[1..])
    else
      var w := Word(s);
      [w] + Words(s[|w|..])
  }

  /** The characters `shlex.split` treats specially besides blanks: the two
      quotes and the backslash escape. */
  predicate IsShellQuoting(c: char) {
    c == '"' || c == '\'' || c == '\\'
  }

  /** Text on which `shlex.split` only splits at blanks. */
  predicate Plain(s: string) {
    forall k :: 0 <= k < |s| ==> !IsShellQuoting(s[k])
  }

  /** A stand-in for `shlex.split` that is exact on `Plain` text: it never
      fails and splits at blanks. Every lemma about it requires `Plain`. */
  function ShlexLite(s: string): Option<seq<string>> {
    Some(Words(s))
  }

  lemma {:induction false} WordOf(w: string, rest: string)
    requires w != [] && forall k :: 0 <= k < |w| ==> !IsBlank(w[k])
    requires Plain(w)
    requires rest == [] || IsBlank(rest[0])
    ensures Word(w + rest) == w
    decreases |w|
  {
    if |w| > 1 {
      assert (w + rest)[1..] == w[1..] + rest;
      WordOf(w[1..], rest);
    }
  }

  lemma WordsCons(w: string, rest: string)
    requires w != [] && forall k :: 0 <= k < |w| ==> !IsBlank(w[k])
    requires Plain(w)
    requires rest == [] || IsBlank(rest[0])
    ensures Words(w + rest) == [w] + Words(rest)
  {
    WordOf(w, rest);
    assert (w + rest)[|w|..] == rest;
  }

  predicate NoSpace(s: string) {
    forall k :: 0 <= k < |s| ==> !IsSpace(s[k])
  }

  lemma WordsSkipBlank(s: string)
    ensures Words(" " + s) == Words(s)
  {
    assert (" " + s)[1..] == s;
  }

  lemma NoBlankInWord(s: string)
    requires NoSpace(s)
    ensures forall k :: 0 <= k < |s| ==> !IsBlank(s[k])
  {
  }

  lemma WordsOfAssignment(field: string, value: string)
    requires field != [] && value != []
    requires Plain(field) && Plain(value)
    requires NoSpace(field) && NoSpace(value)
    ensures Words(field + " = " + value) == [field, "=", value]
  {
    NoBlankInWord(field);
    NoBlankInWord(value);
    var v1 := " " + value;
    var v2 := "=" + v1;
    var v3 := " " + v2;
    WordsCons(value, []);
    assert value + [] == value;
    WordsSkipBlank(value);
    WordsCons("=", v1);
    WordsSkipBlank(v2);
    WordsCons(field, v3);
    AssignmentText(field, value);
  }

  lemma AssignmentText(field: string, value: string)
    ensures field + " = " + value == field + (" " + ("=" + (" " + value)))
  {
  }

  lemma OneEntryMap(m: map<string, Value>, k: string, v: Value)
    requires m.Keys == {k} && m[k] == v
    ensures m == map[k := v]
  {
  }

  /** `parse_where` on `field = value` with the blank-splitting tokenizer,
      for sides without whitespace, quotes or backslashes. */
  lemma ShlexWhereAssignment(field: string, value: string)
    requires field != [] && value != []
    requires Plain(field) && Plain(value)
    requires NoSpace(field) && NoSpace(value)
    ensures ParseWhere(ShlexLite, field + " = " + value) == Some(map[field := ParseValue(value).value])
  {
    var text := field + " = " + value;
    WordsOfAssignment(field, value);
    var r := ParseWhere(ShlexLite, text);
    assert !AllSpace(value) by {
      assert !IsSpace(value[0]);
    }
    OneEntryMap(r.value, field, ParseValue(value).value);
  }

  /** A blank after a word is trimmed away. */
  lemma StripTrailingBlank(field: string)
    requires field != [] && NoSpace(field)
    ensures Strip(field + " ") == field
  {
    TrimLeftFixed(field + " ");
    TrimRightSpaces(field, " ");
    TrimRightFixed(field);
  }

  lemma ParseValueLeadingBlank(value: string)
    ensures ParseValue(" " + value) == ParseValue(value)
  {
    var t := " " + value;
    assert t[1..] == value;
    assert TrimLeft(t) == TrimLeft(value);
    ParseValueTrims(t);
    ParseValueTrims(value);
  }

  /** `parse_where_simple` on `field = value` when neither side holds whitespace. */
  lemma SimpleWhereAssignment(field: string, value: string)
    requires field != [] && value != []
    requires NoSpace(field) && NoSpace(value) && '=' !in field
    ensures ParseWhereSimple(field + " = " + value) == Some(map[field := ParseValue(value).value])
  {
    assert field + " = " + value == (field + " ") + "=" + (" " + value);
    assert '=' !in field + " ";
    assert !AllSpace(" " + value) by {
      assert (" " + value)[1] == value[0];
    }
    SimpleCutsAtFirstEquals(field + " ", " " + value);
    StripTrailingBlank(field);
    ParseValueLeadingBlank(value);
  }

  /** The two WHERE parsers agree on `field = value` when neither side holds
      whitespace, quotes or backslashes and the field holds no `=` (the value
      may). */
  lemma WhereParsersAgree(field: string, value: string)
    requires field != [] && value != []
    requires Plain(field) && Plain(value)
    requires NoSpace(field) && NoSpace(value) && '=' !in field
    ensures ParseWhere(ShlexLite, field + " = " + value) == ParseWhereSimple(field + " = " + value)
  {
    ShlexWhereAssignment(field, value);
    SimpleWhereAssignment(field, value);
  }

  /** A SET list with one part parses exactly like a WHERE clause of that part. */
  lemma SingleSetIsWhere(tokenize: Tokenizer, text: string)
    requires text != [] && CommaSplit.SplitByCommas(text) == [text]
    ensures ParseSet(tokenize, text) == ParseWhere(tokenize, text)
  {
    var parts := CommaSplit.SplitByCommas(text);
    match ParseClause(tokenize, text)
    case None =>
    case Some(c) =>
      var cs := ParseClauses(tokenize, parts).value;
      assert cs == [c];
      assert Assign(cs) == map[c.field := c.value];
  }
}
