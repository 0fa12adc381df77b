/** The two string parsers of the shading-language front end: pipeline
    attributes (`key = value`) and geometry yield expressions. */
module Ssl {
  import opened Common

  /** Attributes that can be set in a pipeline. */
  datatype PipelineAttribute =
    | GeometryShaderMaxVertices(n: u32)  // maximum vertices the geometry shader can output
    | GeometryShaderInvokations(n: u32)  // number of times the geometry shader is invoked

  /** Expressions that can be yielded in a geometry shader. */
  datatype GeometryYieldExpression =
    | YieldPrimitive
    | YieldFoldVertex(expr: string)

  /** Error that can occur when parsing shading code. */
  datatype ParseError = ExpressionError(message: string)

  // ---------------------------------------------------------------------
  // Characters and strings
  // ---------------------------------------------------------------------

  /** Rust's `char::is_whitespace`: the Unicode White_Space property. */
  predicate IsWhitespace(c: char) {
    var n := c as int;
    (0x09 <= n <= 0x0D) || n == 0x20 || n == 0x85 || n == 0xA0 || n == 0x1680
    || (0x2000 <= n <= 0x200A) || n == 0x2028 || n == 0x2029 || n == 0x202F
    || n == 0x205F || n == 0x3000
  }

  predicate AllWhitespace(s: string) {
    forall i :: 0 <= i < |s| ==> IsWhitespace(s[i])
  }

  /** Neither end of `s` is a whitespace character. */
  predicate Unpadded(s: string) {
    s == [] || (!IsWhitespace(s[0]) && !IsWhitespace(s[|s| - 1]))
  }

  /** Rust's `str::trim_start`. */
  function TrimStart(s: string): (r: string)
    ensures r == [] || !IsWhitespace(r[0])
    ensures |r| <= |s| && r == s[|s| - |r|..]
    ensures AllWhitespace(s[..|s| - |r|])
  {
    if |s| > 0 && IsWhitespace(s[0]) then TrimStart(s[1..]) else s
  }

  /** Rust's `str::trim_end`. */
  function TrimEnd(s: string): (r: string)
    ensures r == [] || !IsWhitespace(r[|r| - 1])
    ensures |r| <= |s| && r == s[..|r|]
    ensures AllWhitespace(s[|r|..])
  {
    if |s| > 0 && IsWhitespace(s[|s| - 1]) then TrimEnd(s[..|s| - 1]) else s
  }

  /** `r` is an infix of `s` with only whitespace before and after it. */
  ghost predicate PaddedInfix(s: string, r: string) {
    exists i :: 0 <= i <= |s| - |r| && r == s[i..i + |r|] && AllWhitespace(s[..i]) && AllWhitespace(s[i + |r|..])
  }

  lemma PaddedInfixAt(s: string, i: nat, r: string)
    requires i + |r| <= |s| && r == s[i..i + |r|] && AllWhitespace(s[..i]) && AllWhitespace(s[i + |r|..])
    ensures PaddedInfix(s, r)
  {
  }

  /** Slicing a suffix is slicing the whole from further on. */
  lemma SuffixSlices(s: string, i: nat, k: nat)
    requires i + k <= |s|
    ensures s[i..][..k] == s[i..i + k] && s[i..][k..] == s[i + k..]
  {
  }

  /** Rust's `str::trim`: the longest infix with no whitespace at either end. */
  function Trim(s: string): (r: string)
    ensures Unpadded(r)
    ensures PaddedInfix(s, r)
  {
    TrimmedBothEnds(s, TrimStart(s), TrimEnd(TrimStart(s)));
    TrimEnd(TrimStart(s))
  }

  /** A suffix after leading whitespace, cut before trailing whitespace,
      is a padded infix. */
  lemma TrimmedBothEnds(s: string, u: string, r: string)
    requires |u| <= |s| && u == s[|s| - |u|..] && AllWhitespace(s[..|s| - |u|])
    requires |r| <= |u| && r == u[..|r|] && AllWhitespace(u[|r|..])
    ensures PaddedInfix(s, r)
  {
    var i := |s| - |u|;
    SuffixSlices(s, i, |r|);
    PaddedInfixAt(s, i, r);
  }

  /** Rust's `str::find` for a single character: the first index of `c`.
      The index counts characters where Rust counts bytes; splitting the
      text at either gives the same two halves. */
  function Find(s: string, c: char): (r: Option<nat>)
    ensures r.None? <==> c !in s
    ensures r.Some? ==> r.value < |s| && s[r.value] == c && c !in s[..r.value]
  {
    if s == [] then None
    else if s[0] == c then Some(0)
    else match Find(s[1..], c)
      case None => None
      case Some(i) => Some(i + 1)
  }

  // ---------------------------------------------------------------------
  // Decimal numbers (Rust's `u32::from_str`)
  // ---------------------------------------------------------------------

  predicate IsDigit(c: char) { '0' <= c <= '9' }

  predicate AllDigits(s: string) {
    forall i :: 0 <= i < |s| ==> IsDigit(s[i])
  }

  /** The number a string of decimal digits denotes. */
  function DigitsValue(s: string): nat
    requires AllDigits(s)
  {
    if s == [] then 0
    else DigitsValue(s[..|s| - 1]) * 10 + (s[|s| - 1] as int - '0' as int)
  }

  /** The text after an optional leading `+`. */
  function Unsigned(s: string): string {
    if |s| > 0 && s[0] == '+' then s[1..] else s
  }

  /** Rust's `u32::from_str`: an optional `+`, then at least one ASCII digit,
      denoting a value below 2^32. */
  function ParseU32(s: string): (r: Option<u32>)
    ensures r.Some? <==> Unsigned(s) != [] && AllDigits(Unsigned(s)) && DigitsValue(Unsigned(s)) < U32_LIMIT
    ensures r.Some? ==> r.value == DigitsValue(Unsigned(s))
  {
    var digits := Unsigned(s);
    if digits == [] || !AllDigits(digits) then None
    else
      var v := DigitsValue(digits);
      if v < U32_LIMIT then Some(v) else None
  }

  /** The canonical decimal form of `n`: digits only, no leading zero. */
  function Decimal(n: nat): (r: string)
    ensures r != [] && AllDigits(r)
    ensures r[0] != '0' || n == 0
  {
    if n < 10 then ['0' + n as char]
    else Decimal(n / 10) + ['0' + (n % 10) as char]
  }

  lemma {:induction false} DecimalValue(n: nat)
    ensures DigitsValue(Decimal(n)) == n
  {
    if n >= 10 {
      var d := Decimal(n);
      assert d[..|d| - 1] == Decimal(n / 10);
      DecimalValue(n / 10);
    }
  }

  /** A sign and leading zeros are accepted; a minus sign, trailing
      characters and a lone `+` are not. */
  lemma ParseU32Examples()
    ensures ParseU32("+3") == Some(3) && ParseU32("03") == Some(3) && ParseU32("+007") == Some(7)
    ensures ParseU32("") == None && ParseU32("+") == None && ParseU32("-3") == None && ParseU32("3 ") == None
  {
    assert "+3"[1..] == "3" && "3"[..0] == [];
    assert "03"[..1] == "0" && "0"[..0] == [];
    assert "+007"[1..] == "007" && "007"[..2] == "00" && "00"[..1] == "0";
    assert "+"[1..] == "";
    assert !IsDigit("-3"[0]) && !IsDigit("3 "[1]);
  }

  /** Printing a `u32` in decimal and parsing it back gives the number. */
  lemma ParseU32Decimal(n: u32)
    ensures ParseU32(Decimal(n)) == Some(n)
  {
    DecimalValue(n);
  }

  // ---------------------------------------------------------------------
  // Pipeline attributes
  // ---------------------------------------------------------------------

  /** The key that names each pipeline attribute. */
  function KeyName(a: PipelineAttribute): string {
    match a
    case GeometryShaderMaxVertices(_) => "geometry_shader_max_vertices"
    case GeometryShaderInvokations(_) => "geometry_shader_invokations"
  }

  /** `FromStr for PipelineAttribute`: split at the first `=`, then read
      the key and the value on either side of it. */
  function ParsePipelineAttribute(s: string): (r: Result<PipelineAttribute, ParseError>)
    ensures r == Err(ExpressionError("cannot find =")) <==> '=' !in s
    ensures r.Ok? ==> exists i :: 0 <= i < |s| - 1 && s[i] == '=' && '=' !in s[..i]
                        && Trim(s[..i]) == KeyName(r.value) && ParseU32(Trim(s[i + 1..])) == Some(r.value.n)
  {
    match Find(s, '=')
    case None => Err(ExpressionError("cannot find ="))
    case Some(i) =>
      assert s[i..][1..] == s[i + 1..];
      ParseKeyValue(s[..i], s[i..])
  }

  /** The rest of `FromStr for PipelineAttribute`, given the text before the
      first `=` and the text from it on: require something after the `=`,
      then dispatch on the trimmed key and parse the trimmed value as a
      `u32`. */
  function ParseKeyValue(key: string, value: string): (r: Result<PipelineAttribute, ParseError>)
    ensures |value| <= 1 ==> r == Err(ExpressionError("no value"))
    ensures r.Ok? ==> |value| > 1 && Trim(key) == KeyName(r.value) && ParseU32(Trim(value[1..])) == Some(r.value.n)
    ensures r != Err(ExpressionError("cannot find ="))
  {
    if |value| <= 1 then Err(ExpressionError("no value"))
    else if Trim(key) == "geometry_shader_max_vertices" then
      var v := Trim(value[1..]);
      match ParseU32(v)
      case None => Err(ExpressionError("unable to parse geometry_shader_max_vertices, found " + v))
      case Some(n) => Ok(GeometryShaderMaxVertices(n))
    else if Trim(key) == "geometry_shader_invokations" then
      var v := Trim(value[1..]);
      match ParseU32(v)
      case None => Err(ExpressionError("unable to parse geometry_shader_invokation, found " + v))
      case Some(n) => Ok(GeometryShaderInvokations(n))
    else Err(ExpressionError("expected a valid pipeline attribute, found " + key))
  }

  /** The input is split at its first `=`. */
  lemma SplitAtFirstEquals(key: string, rest: string)
    requires '=' !in key
    ensures ParsePipelineAttribute(key + "=" + rest) == ParseKeyValue(key, "=" + rest)
  {
    var s := key + "=" + rest;
    assert s[|key|] == '=';
    assert Find(s, '=') == Some(|key|);
    assert s[..|key|] == key;
    assert s[|key|..] == "=" + rest;
  }

  /** The canonical text of a pipeline attribute. */
  function PipelineAttributeText(a: PipelineAttribute): string {
    KeyName(a) + " = " + Decimal(a.n)
  }

  lemma {:induction false} TrimStartSkips(w: string, s: string)
    requires AllWhitespace(w)
    ensures TrimStart(w + s) == TrimStart(s)
  {
    if w == [] {
      assert w + s == s;
    } else {
      assert (w + s)[0] == w[0];
      assert (w + s)[1..] == w[1..] + s;
      TrimStartSkips(w[1..], s);
    }
  }

  lemma {:induction false} TrimEndSkips(s: string, w: string)
    requires AllWhitespace(w)
    ensures TrimEnd(s + w) == TrimEnd(s)
  {
    if w == [] {
      assert s + w == s;
    } else {
      assert (s + w)[|s + w| - 1] == w[|w| - 1];
      assert (s + w)[..|s + w| - 1] == s + w[..|w| - 1];
      TrimEndSkips(s, w[..|w| - 1]);
    }
  }

  /** Trimming removes exactly the whitespace padding around an unpadded text. */
  lemma TrimPadded(w1: string, x: string, w2: string)
    requires AllWhitespace(w1) && AllWhitespace(w2) && Unpadded(x)
    ensures Trim(w1 + x + w2) == x
  {
    assert w1 + x + w2 == w1 + (x + w2);
    TrimStartSkips(w1, x + w2);
    if x == [] {
      assert x + w2 == w2 + [];
      TrimStartSkips(w2, []);
      assert TrimStart(w1 + x + w2) == [];
    } else {
      assert (x + w2)[0] == x[0];
      assert TrimStart(w1 + x + w2) == x + w2;
      TrimEndSkips(x, w2);
    }
  }

  /** A value after the `=` that trims to a `u32` gives the attribute that
      the trimmed key names. */
  lemma KeyValueAttribute(key: string, rest: string, a: PipelineAttribute)
    requires Trim(key) == KeyName(a) && rest != [] && ParseU32(Trim(rest)) == Some(a.n)
    ensures ParseKeyValue(key, "=" + rest) == Ok(a)
  {
    var value := "=" + rest;
    assert |value| > 1 && value[1..] == rest;
    match a
    case GeometryShaderMaxVertices(n) =>
      assert ParseKeyValue(key, value) == Ok(GeometryShaderMaxVertices(n));
    case GeometryShaderInvokations(n) =>
      assert Trim(key) != "geometry_shader_max_vertices" by {
        assert |Trim(key)| == 27;
      }
      assert ParseKeyValue(key, value) == Ok(GeometryShaderInvokations(n));
  }

  /** A value that follows the `=` but does not trim to a number is refused. */
  lemma KeyValueNotANumber(key: string, rest: string)
    requires rest != [] && ParseU32(Trim(rest)).None?
    ensures ParseKeyValue(key, "=" + rest).Err?
  {
    assert ("=" + rest)[1..] == rest;
  }

  /** Whitespace alone trims to nothing. */
  lemma TrimWhitespace(w: string)
    requires AllWhitespace(w)
    ensures Trim(w) == []
  {
    TrimPadded(w, [], []);
    assert w + [] + [] == w;
  }

  /** The key names contain no `=` and have no whitespace at either end. */
  lemma KeyNameShape(a: PipelineAttribute)
    ensures '=' !in KeyName(a) && Unpadded(KeyName(a))
  {
  }

  /** A key without `=` that trims to an attribute's name, then `=`, then a
      value that trims to the attribute's number, parses to the attribute. */
  lemma ParseAssignment(key: string, rest: string, a: PipelineAttribute)
    requires '=' !in key
    requires Trim(key) == KeyName(a) && rest != [] && ParseU32(Trim(rest)) == Some(a.n)
    ensures ParsePipelineAttribute(key + "=" + rest) == Ok(a)
  {
    KeyValueAttribute(key, rest, a);
    SplitAtFirstEquals(key, rest);
  }

  /** Every attribute is parsed back from its key and a text of its value,
      whatever whitespace surrounds the key and the value. */
  lemma ParsePaddedAttribute(w1: string, w2: string, w3: string, v: string, w4: string, a: PipelineAttribute)
    requires AllWhitespace(w1) && AllWhitespace(w2) && AllWhitespace(w3) && AllWhitespace(w4)
    requires v != [] && Unpadded(v) && ParseU32(v) == Some(a.n)
    ensures ParsePipelineAttribute(w1 + KeyName(a) + w2 + "=" + w3 + v + w4) == Ok(a)
  {
    var key := w1 + KeyName(a) + w2;
    var rest := w3 + v + w4;
    assert '=' !in key by { KeyNameShape(a); }
    assert Trim(key) == KeyName(a) by { KeyNameShape(a); TrimPadded(w1, KeyName(a), w2); }
    assert Trim(rest) == v by { TrimPadded(w3, v, w4); }
    ParseAssignment(key, rest, a);
    Regroup(w1, KeyName(a), w2, "=", w3, v, w4);
  }

  lemma Regroup(a: string, b: string, c: string, d: string, e: string, f: string, g: string)
    ensures a + b + c + d + e + f + g == (a + b + c) + d + (e + f + g)
  {
  }

  /** The canonical text of every attribute parses back to it. */
  lemma ParsePrintedAttribute(a: PipelineAttribute)
    ensures ParsePipelineAttribute(PipelineAttributeText(a)) == Ok(a)
  {
    var d := Decimal(a.n);
    assert Unpadded(d) && ParseU32(d) == Some(a.n) by {
      ParseU32Decimal(a.n);
      assert IsDigit(d[0]) && IsDigit(d[|d| - 1]);
    }
    ParsePaddedAttribute([], " ", " ", d, [], a);
    DropEmptyEnds(KeyName(a), d);
  }

  lemma DropEmptyEnds(k: string, d: string)
    ensures [] + k + " " + "=" + " " + d + [] == k + " = " + d
  {
  }

  /** Conversely, a successful parse of a key, `=` and a value, the key
      holding no `=`, means that the trimmed key names the attribute and
      the trimmed value is its number. */
  lemma ParsedAttributeShape(key: string, rest: string, a: PipelineAttribute)
    requires '=' !in key && ParsePipelineAttribute(key + "=" + rest) == Ok(a)
    ensures rest != [] && Trim(key) == KeyName(a) && ParseU32(Trim(rest)) == Some(a.n)
  {
    SplitAtFirstEquals(key, rest);
    KeyValueShape(key, rest, a);
  }

  lemma KeyValueShape(key: string, rest: string, a: PipelineAttribute)
    requires ParseKeyValue(key, "=" + rest) == Ok(a)
    ensures rest != [] && Trim(key) == KeyName(a) && ParseU32(Trim(rest)) == Some(a.n)
  {
    assert ("=" + rest)[1..] == rest;
  }

  /** Without an `=` the parse fails with "cannot find =". */
  lemma NoEqualsSign(s: string)
    requires '=' !in s
    ensures ParsePipelineAttribute(s) == Err(ExpressionError("cannot find ="))
  {
  }

  /** When the first `=` ends the input the parse fails with "no value". */
  lemma NothingAfterEqualsSign(key: string)
    requires '=' !in key
    ensures ParsePipelineAttribute(key + "=") == Err(ExpressionError("no value"))
  {
    SplitAtFirstEquals(key, "");
    assert key + "=" + "" == key + "=";
  }

  /** A value made only of whitespace passes the length check but does not
      parse as a number, so the parse fails whatever the key. */
  lemma WhitespaceValue(key: string, w: string)
    requires '=' !in key && AllWhitespace(w) && w != []
    ensures ParsePipelineAttribute(key + "=" + w).Err?
  {
    TrimWhitespace(w);
    KeyValueNotANumber(key, w);
    SplitAtFirstEquals(key, w);
  }

  /** A known key whose value does not trim to a `u32` is refused, and the
      error names the attribute and quotes the trimmed value. */
  lemma NotANumber(key: string, rest: string)
    requires '=' !in key && rest != [] && ParseU32(Trim(rest)).None?
    ensures Trim(key) == "geometry_shader_max_vertices" ==>
              ParsePipelineAttribute(key + "=" + rest)
                == Err(ExpressionError("unable to parse geometry_shader_max_vertices, found " + Trim(rest)))
    ensures Trim(key) == "geometry_shader_invokations" ==>
              ParsePipelineAttribute(key + "=" + rest)
                == Err(ExpressionError("unable to parse geometry_shader_invokation, found " + Trim(rest)))
  {
    SplitAtFirstEquals(key, rest);
    assert ("=" + rest)[1..] == rest;
  }

  /** Any key other than the two attribute names is refused, and the error
      quotes the untrimmed key. */
  lemma UnknownKey(key: string, rest: string)
    requires '=' !in key && rest != []
    requires Trim(key) != "geometry_shader_max_vertices" && Trim(key) != "geometry_shader_invokations"
    ensures ParsePipelineAttribute(key + "=" + rest)
            == Err(ExpressionError("expected a valid pipeline attribute, found " + key))
  {
    SplitAtFirstEquals(key, rest);
  }

  /** The cases pinned down by the unit test of the attribute parser. */
  lemma PipelineAttributeExamples()
    ensures ParsePipelineAttribute("geometry_shader_max_vertices = 3") == Ok(GeometryShaderMaxVertices(3))
    ensures ParsePipelineAttribute("geometry_shader_max_vertices =3") == Ok(GeometryShaderMaxVertices(3))
    ensures ParsePipelineAttribute("geometry_shader_max_vertices =").Err?
    ensures ParsePipelineAttribute("geometry_shader_max_vertices = ").Err?
    ensures ParsePipelineAttribute("geometry_shader_invokations = 1") == Ok(GeometryShaderInvokations(1))
    ensures ParsePipelineAttribute("geometry_shader_invokations =1") == Ok(GeometryShaderInvokations(1))
    ensures ParsePipelineAttribute("geometry_shader_invokations =").Err?
    ensures ParsePipelineAttribute("geometry_shader_invokations = ").Err?
  {
    MaxVerticesSpaced();
    MaxVerticesUnspaced();
    MaxVerticesMissing();
    MaxVerticesBlank();
    InvokationsSpaced();
    InvokationsUnspaced();
    InvokationsMissing();
    InvokationsBlank();
  }

  lemma MaxVerticesSpaced()
    ensures ParsePipelineAttribute("geometry_shader_max_vertices = 3") == Ok(GeometryShaderMaxVertices(3))
  {
    assert [] + KeyName(GeometryShaderMaxVertices(3)) + " " + "=" + " " + "3" + [] == "geometry_shader_max_vertices = 3";
    assert ParseU32("3") == Some(3) by { assert DigitsValue("3") == 3; }
    ParsePaddedAttribute([], " ", " ", "3", [], GeometryShaderMaxVertices(3));
  }

  lemma MaxVerticesUnspaced()
    ensures ParsePipelineAttribute("geometry_shader_max_vertices =3") == Ok(GeometryShaderMaxVertices(3))
  {
    assert [] + KeyName(GeometryShaderMaxVertices(3)) + " " + "=" + [] + "3" + [] == "geometry_shader_max_vertices =3";
    assert ParseU32("3") == Some(3) by { assert DigitsValue("3") == 3; }
    ParsePaddedAttribute([], " ", [], "3", [], GeometryShaderMaxVertices(3));
  }

  lemma MaxVerticesMissing()
    ensures ParsePipelineAttribute("geometry_shader_max_vertices =").Err?
  {
    var key := KeyName(GeometryShaderMaxVertices(0)) + " ";
    assert key + "=" == "geometry_shader_max_vertices =";
    KeyNameShape(GeometryShaderMaxVertices(0));
    NothingAfterEqualsSign(key);
  }

  lemma MaxVerticesBlank()
    ensures ParsePipelineAttribute("geometry_shader_max_vertices = ").Err?
  {
    var key := KeyName(GeometryShaderMaxVertices(0)) + " ";
    assert key + "=" + " " == "geometry_shader_max_vertices = ";
    KeyNameShape(GeometryShaderMaxVertices(0));
    assert AllWhitespace(" ") by { assert IsWhitespace(' '); }
    WhitespaceValue(key, " ");
  }

  lemma InvokationsSpaced()
    ensures ParsePipelineAttribute("geometry_shader_invokations = 1") == Ok(GeometryShaderInvokations(1))
  {
    assert [] + KeyName(GeometryShaderInvokations(1)) + " " + "=" + " " + "1" + [] == "geometry_shader_invokations = 1";
    assert ParseU32("1") == Some(1) by { assert DigitsValue("1") == 1; }
    ParsePaddedAttribute([], " ", " ", "1", [], GeometryShaderInvokations(1));
  }

  lemma InvokationsUnspaced()
    ensures ParsePipelineAttribute("geometry_shader_invokations =1") == Ok(GeometryShaderInvokations(1))
  {
    assert [] + KeyName(GeometryShaderInvokations(1)) + " " + "=" + [] + "1" + [] == "geometry_shader_invokations =1";
    assert ParseU32("1") == Some(1) by { assert DigitsValue("1") == 1; }
    ParsePaddedAttribute([], " ", [], "1", [], GeometryShaderInvokations(1));
  }

  lemma InvokationsMissing()
    ensures ParsePipelineAttribute("geometry_shader_invokations =").Err?
  {
    var key := KeyName(GeometryShaderInvokations(0)) + " ";
    assert key + "=" == "geometry_shader_invokations =";
    KeyNameShape(GeometryShaderInvokations(0));
    NothingAfterEqualsSign(key);
  }

  lemma InvokationsBlank()
    ensures ParsePipelineAttribute("geometry_shader_invokations = ").Err?
  {
    var key := KeyName(GeometryShaderInvokations(0)) + " ";
    assert key + "=" + " " == "geometry_shader_invokations = ";
    KeyNameShape(GeometryShaderInvokations(0));
    assert AllWhitespace(" ") by { assert IsWhitespace(' '); }
    WhitespaceValue(key, " ");
  }

  // ---------------------------------------------------------------------
  // Geometry yield expressions
  // ---------------------------------------------------------------------

  /** `FromStr for GeometryYieldExpression`. */
  function ParseGeometryYield(s: string): (r: Result<GeometryYieldExpression, ParseError>)
    ensures r.Ok? ==> Parsable(r.value) && GeometryYieldText(r.value) == s
    ensures r.Err? ==> r.error == ExpressionError("expected yield, found " + s)
  {
    if s == "yieldprim" then Ok(YieldPrimitive)
    else if |s| > |"yield "| && s[..|"yield "|] == "yield " then Ok(YieldFoldVertex(s[|"yield "|..]))
    else Err(ExpressionError("expected yield, found " + s))
  }

  /** The text of a yield expression. */
  function GeometryYieldText(y: GeometryYieldExpression): string {
    match y
    case YieldPrimitive => "yieldprim"
    case YieldFoldVertex(e) => "yield " + e
  }

  /** A yield expression the parser can produce: a fold vertex needs an
      expression. */
  predicate Parsable(y: GeometryYieldExpression) {
    y.YieldFoldVertex? ==> y.expr != []
  }

  /** The parser accepts exactly the texts of parsable yield expressions,
      and returns the expression the text denotes. */
  lemma ParseGeometryYieldExact(s: string, y: GeometryYieldExpression)
    ensures ParseGeometryYield(s) == Ok(y) <==> Parsable(y) && GeometryYieldText(y) == s
  {
    if Parsable(y) && GeometryYieldText(y) == s {
      if y.YieldFoldVertex? {
        assert s[..6] == "yield ";
        assert s[6..] == y.expr;
        assert s != "yieldprim" by { assert "yieldprim"[5] != s[5]; }
      }
    }
    if ParseGeometryYield(s) == Ok(y) && s != "yieldprim" {
      assert s == s[..6] + s[6..];
    }
  }

  /** A failed parse quotes the whole input. */
  lemma GeometryYieldError(s: string)
    requires s != "yieldprim" && !(|s| > 6 && s[..6] == "yield ")
    ensures ParseGeometryYield(s) == Err(ExpressionError("expected yield, found " + s))
  {
  }

  /** The cases pinned down by the unit test of the yield parser, and the
      bare `yield ` that it refuses. */
  lemma GeometryYieldExamples()
    ensures ParseGeometryYield("yieldprim") == Ok(YieldPrimitive)
    ensures ParseGeometryYield("yield FoldVertex(vertex[i].color)")
            == Ok(YieldFoldVertex("FoldVertex(vertex[i].color)"))
    ensures ParseGeometryYield("yield ").Err?
    ensures ParseGeometryYield("yield").Err?
  {
    YieldFoldVertexExample();
    BareYield();
  }

  lemma YieldFoldVertexExample()
    ensures ParseGeometryYield("yield FoldVertex(vertex[i].color)")
            == Ok(YieldFoldVertex("FoldVertex(vertex[i].color)"))
  {
    var e := "FoldVertex(vertex[i].color)";
    assert GeometryYieldText(YieldFoldVertex(e)) == "yield FoldVertex(vertex[i].color)";
    ParseGeometryYieldExact("yield FoldVertex(vertex[i].color)", YieldFoldVertex(e));
  }

  lemma BareYield()
    ensures ParseGeometryYield("yield ").Err?
    ensures ParseGeometryYield("yield").Err?
  {
  }
}
