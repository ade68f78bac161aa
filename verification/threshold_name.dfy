/**
 * parse_threshold_from_name: a template file named like "wheat lvl 1@0.72.png"
 * carries its own match threshold after the last '@' of its stem.
 */
module ThresholdName {
  import opened Wrappers

  /** The global default threshold (MATCH_THRESHOLD). */
  const MatchThreshold: real := 0.7

  /** Path separators of a Windows path, which also accepts '/'. */
  predicate IsSeparator(c: char) {
    c == '/' || c == '\\'
  }

  /** The position of the last c in s, or -1 when s has none (str.rfind). */
  function LastIndexOf(s: string, c: char): (i: int)
    ensures -1 <= i < |s|
    ensures i >= 0 ==> s[i] == c && c !in s[i + 1..]
    ensures i == -1 ==> c !in s
    decreases |s|
  {
    if s == [] then -1
    else if s[|s| - 1] == c then |s| - 1
    else
      assert s == s[..|s| - 1] + [s[|s| - 1]];
      LastIndexOf(s[..|s| - 1], c)
  }

  /** The text after the last c of s, or all of s when it has none (s.split(c)[-1]). */
  function AfterLast(s: string, c: char): (r: string)
    ensures |r| <= |s| && r == s[|s| - |r|..]
    ensures c !in r
    ensures |r| < |s| ==> s[|s| - |r| - 1] == c
  {
    s[LastIndexOf(s, c) + 1..]
  }

  /** The final component of a path: what follows its last separator (Path.name). */
  function FileName(path: string): (r: string)
    ensures |r| <= |path| && r == path[|path| - |r|..]
    ensures forall k :: 0 <= k < |r| ==> !IsSeparator(r[k])
    ensures |r| < |path| ==> IsSeparator(path[|path| - |r| - 1])
    decreases |path|
  {
    if path == [] then []
    else if IsSeparator(path[|path| - 1]) then []
    else FileName(path[..|path| - 1]) + [path[|path| - 1]]
  }

  /**
   * A file name without its last suffix (Path.stem): the suffix starts at
   * the last '.', which must be neither the first nor the last character.
   */
  function Stem(name: string): (r: string)
    ensures |r| <= |name| && r == name[..|r|]
    ensures r == name || (0 < |r| < |name| - 1 && name[|r|] == '.' && '.' !in name[|r| + 1..])
    ensures r != name ==> LastIndexOf(name, '.') == |r|
  {
    var i := LastIndexOf(name, '.');
    if 0 < i < |name| - 1 then name[..i] else name
  }

  predicate IsDigit(c: char) {
    '0' <= c <= '9'
  }

  predicate AllDigits(s: string) {
    forall k :: 0 <= k < |s| ==> IsDigit(s[k])
  }

  function Pow10(n: nat): (p: nat)
    ensures p >= 1
  {
    if n == 0 then 1 else 10 * Pow10(n - 1)
  }

  /** The value of the digits whole, a point, and the digits fraction. */
  function DecimalValue(whole: string, fraction: string): real
    requires AllDigits(whole) && AllDigits(fraction)
  {
    DigitsValue(whole) as real + DigitsValue(fraction) as real / Pow10(|fraction|) as real
  }

  /** The value of a string of decimal digits. */
  function DigitsValue(s: string): nat
    requires AllDigits(s)
  {
    if s == [] then 0 else 10 * DigitsValue(s[..|s| - 1]) + (s[|s| - 1] - '0') as nat
  }

  /** The position of the first c in s, or |s| when s has none. */
  function FirstIndexOf(s: string, c: char): (i: nat)
    ensures i <= |s|
    ensures c !in s[..i]
    ensures i < |s| ==> s[i] == c
  {
    if s == [] then 0
    else if s[0] == c then 0
    else 1 + FirstIndexOf(s[1..], c)
  }

  /**
   * An unsigned decimal: digits, optionally a point and more digits, with
   * at least one digit in all ("7", "0.72", ".5", "1.").
   */
  function ParseUnsigned(s: string): Option<real> {
    var dot := FirstIndexOf(s, '.');
    var whole := s[..dot];
    var fraction := if dot < |s| then s[dot + 1..] else [];
    if AllDigits(whole) && AllDigits(fraction) && |whole| + |fraction| > 0 then
      Some(DecimalValue(whole, fraction))
    else None
  }

  /**
   * The part of Python's float() grammar modelled here: an optional sign,
   * then an unsigned decimal. Empty text never parses, and only a '-' can
   * give a negative value.
   */
  function ParseNumber(s: string): (r: Option<real>)
    ensures r.Some? ==> |s| > 0
    ensures r.Some? && s[0] != '-' ==> r.value >= 0.0
  {
    ParseUnsignedNonNegative(if |s| > 0 && (s[0] == '-' || s[0] == '+') then s[1..] else s);
    if |s| > 0 && (s[0] == '-' || s[0] == '+') then
      match ParseUnsigned(s[1..])
      case Some(v) => Some(if s[0] == '-' then -v else v)
      case None => None
    else ParseUnsigned(s)
  }

  /** A parsed unsigned decimal is never negative. */
  lemma ParseUnsignedNonNegative(s: string)
    ensures ParseUnsigned(s).Some? ==> ParseUnsigned(s).value >= 0.0
  {
    var dot := FirstIndexOf(s, '.');
    var fraction := if dot < |s| then s[dot + 1..] else [];
    if AllDigits(s[..dot]) && AllDigits(fraction) {
      var n := DigitsValue(fraction) as real;
      var p := Pow10(|fraction|) as real;
      assert n / p >= 0.0;
    }
  }

  /**
   * The threshold a template file name asks for: the number after the last
   * '@' of its stem when there is one, it parses, and it lies strictly
   * between 0 and 1; the default in every other case.
   */
  function ParseThresholdFromName(filename: string, defaultThr: real): (thr: real)
    ensures thr == defaultThr || 0.0 < thr < 1.0
    ensures var stem := Stem(FileName(filename));
      var parsed := ParseNumber(AfterLast(stem, '@'));
      && (thr != defaultThr ==> '@' in stem && parsed == Some(thr))
      && ('@' in stem && parsed.Some? && 0.0 < parsed.value < 1.0 ==> thr == parsed.value)
  {
    var name := Stem(FileName(filename));
    if '@' in name then
      match ParseNumber(AfterLast(name, '@'))
      case Some(thr) => if 0.0 < thr < 1.0 then thr else defaultThr
      case None => defaultThr
    else defaultThr
  }

  /** The sign written before a number: none, '+' or '-'. */
  datatype Sign = NoSign | Plus | Minus

  /** A decimal number as written: sign, whole digits, optional point and fraction digits. */
  datatype Decimal = Decimal(sign: Sign, whole: string, point: bool, fraction: string)
  {
    ghost predicate WellFormed() {
      AllDigits(whole) && AllDigits(fraction) && |whole| + |fraction| > 0 && (!point ==> fraction == [])
    }

    /** The digits and point, without the sign. */
    function Magnitude(): string {
      whole + (if point then "." + fraction else "")
    }

    function Render(): string {
      (match sign case NoSign => "" case Plus => "+" case Minus => "-") + Magnitude()
    }

    function Value(): real
      requires WellFormed()
    {
      if sign == Minus then -DecimalValue(whole, fraction) else DecimalValue(whole, fraction)
    }
  }

  /** A string without a character is found to have it at its end. */
  lemma {:induction false} FirstIndexOfAbsent(s: string, c: char, t: string)
    requires c !in s
    ensures FirstIndexOf(s + t, c) == |s| + FirstIndexOf(t, c)
    decreases |s|
  {
    if s != [] {
      assert (s + t)[1..] == s[1..] + t;
      FirstIndexOfAbsent(s[1..], c, t);
    } else {
      assert s + t == t;
    }
  }

  /** Digits hold no point. */
  lemma NoPointInDigits(s: string)
    requires AllDigits(s)
    ensures '.' !in s
  {
    forall k | 0 <= k < |s| ensures s[k] != '.' {
      assert IsDigit(s[k]);
    }
  }

  /** The unsigned part of a well-formed decimal parses to its magnitude. */
  lemma ParseUnsignedRendered(d: Decimal)
    requires d.WellFormed()
    ensures ParseUnsigned(d.Magnitude()) == Some(DecimalValue(d.whole, d.fraction))
  {
    var tail := if d.point then "." + d.fraction else "";
    var body := d.Magnitude();
    NoPointInDigits(d.whole);
    FirstIndexOfAbsent(d.whole, '.', tail);
    var dot := FirstIndexOf(body, '.');
    assert dot == |d.whole|;
    assert body[..dot] == d.whole;
    if d.point {
      assert body[dot + 1..] == d.fraction;
    } else {
      assert dot == |body|;
    }
  }

  /** A sign followed by text parses as that text, negated for '-'. */
  lemma ParseSigned(sign: char, body: string)
    requires sign == '-' || sign == '+'
    ensures ParseNumber([sign] + body) ==
      match ParseUnsigned(body)
      case Some(v) => Some(if sign == '-' then -v else v)
      case None => None
  {
    assert ([sign] + body)[1..] == body;
  }

  /** Text that does not start with a sign parses as an unsigned decimal. */
  lemma ParseUnsignedOnly(body: string)
    requires |body| > 0 && body[0] != '-' && body[0] != '+'
    ensures ParseNumber(body) == ParseUnsigned(body)
  {
  }

  /** Every well-formed decimal, written out, parses back to its value. */
  lemma ParseRendered(d: Decimal)
    requires d.WellFormed()
    ensures ParseNumber(d.Render()) == Some(d.Value())
  {
    ParseUnsignedRendered(d);
    if d.sign == Minus {
      assert d.Render() == ['-'] + d.Magnitude();
      ParseSigned('-', d.Magnitude());
    } else if d.sign == Plus {
      assert d.Render() == ['+'] + d.Magnitude();
      ParseSigned('+', d.Magnitude());
    } else {
      assert d.Render() == d.Magnitude();
      MagnitudeUnsigned(d);
      ParseUnsignedOnly(d.Magnitude());
    }
  }

  /** Text read as an unsigned decimal, split at its first point. */
  function ReadUnsigned(s: string): Decimal {
    var dot := FirstIndexOf(s, '.');
    Decimal(NoSign, s[..dot], dot < |s|, if dot < |s| then s[dot + 1..] else [])
  }

  /** Any text read apart at its first point is written back as itself. */
  lemma ReadUnsignedMagnitude(s: string)
    ensures ReadUnsigned(s).Magnitude() == s
  {
    var dot := FirstIndexOf(s, '.');
    var d := ReadUnsigned(s);
    if dot < |s| {
      assert d.Magnitude() == s[..dot] + ("." + s[dot + 1..]);
      assert s[dot..] == "." + s[dot + 1..];
      assert s == s[..dot] + s[dot..];
    } else {
      assert d.Magnitude() == s[..dot];
    }
  }

  /** Text that parses as an unsigned decimal is the written magnitude of one, with the same value. */
  lemma ParsedUnsignedIsMagnitude(s: string, v: real)
    requires ParseUnsigned(s) == Some(v)
    ensures var d := ReadUnsigned(s); d.WellFormed() && d.Magnitude() == s && d.Value() == v
  {
    ReadUnsignedMagnitude(s);
  }

  /** A sign before text that parses as an unsigned decimal gives a signed, well-formed decimal. */
  lemma SignedRead(sign: char, body: string, u: real)
    requires sign == '-' || sign == '+'
    requires ParseUnsigned(body) == Some(u)
    ensures var d := ReadUnsigned(body).(sign := if sign == '-' then Minus else Plus);
      d.WellFormed() && d.Render() == [sign] + body && d.Value() == (if sign == '-' then -u else u)
  {
    ParsedUnsignedIsMagnitude(body, u);
  }

  /** Text that parses is some well-formed decimal, written out, with the parsed value. */
  lemma ParsedIsRendered(s: string, v: real)
    requires ParseNumber(s) == Some(v)
    ensures exists d: Decimal :: d.WellFormed() && d.Render() == s && d.Value() == v
  {
    if |s| > 0 && (s[0] == '-' || s[0] == '+') {
      assert s == [s[0]] + s[1..];
      ParseSigned(s[0], s[1..]);
      SignedRead(s[0], s[1..], ParseUnsigned(s[1..]).value);
      var d := ReadUnsigned(s[1..]).(sign := if s[0] == '-' then Minus else Plus);
      assert d.Render() == s;
    } else {
      ParsedUnsignedIsMagnitude(s, v);
      var d := ReadUnsigned(s);
      assert d.Render() == d.Magnitude();
    }
  }

  /**
   * The parser accepts exactly the written forms of well-formed decimals:
   * text parses to v if and only if it is some well-formed decimal, written
   * out, whose value is v.
   */
  lemma ParseNumberExactlyRendered(s: string, v: real)
    ensures ParseNumber(s) == Some(v) <==> exists d: Decimal :: d.WellFormed() && d.Render() == s && d.Value() == v
  {
    if ParseNumber(s) == Some(v) {
      ParsedIsRendered(s, v);
    }
    if d: Decimal :| d.WellFormed() && d.Render() == s && d.Value() == v {
      ParseRendered(d);
    }
  }

  /** The written magnitude of a decimal starts with a digit or the point, never a sign. */
  lemma MagnitudeUnsigned(d: Decimal)
    requires d.WellFormed()
    ensures |d.Magnitude()| > 0 && d.Magnitude()[0] != '-' && d.Magnitude()[0] != '+'
  {
    var body := d.Magnitude();
    if |d.whole| > 0 {
      assert IsDigit(d.whole[0]) && body[0] == d.whole[0];
    } else {
      assert body[0] == '.';
    }
  }

  /** The text after the last c of a string is the part after a c written there. */
  lemma AfterLastOfJoin(s: string, c: char, t: string)
    requires c !in t
    ensures AfterLast(s + [c] + t, c) == t
  {
    var u := s + [c] + t;
    var r := AfterLast(u, c);
    assert u[|s|] == c;
    assert |r| == |t|;
    assert u[|u| - |t|..] == t;
  }

  /** A name without separators is its own final component. */
  lemma {:induction false} FileNameOfPlainName(name: string)
    requires forall k :: 0 <= k < |name| ==> !IsSeparator(name[k])
    ensures FileName(name) == name
    decreases |name|
  {
    if name != [] {
      FileNameOfPlainName(name[..|name| - 1]);
      assert name == name[..|name| - 1] + [name[|name| - 1]];
    }
  }

  /** The stem of "<stem>.<ext>", for a non-empty stem and extension without a point, is stem. */
  lemma StemOfJoin(stem: string, ext: string)
    requires stem != [] && ext != [] && '.' !in ext
    ensures Stem(stem + ['.'] + ext) == stem
  {
    var name := stem + ['.'] + ext;
    var i := LastIndexOf(name, '.');
    assert name[|stem|] == '.';
    assert name[|stem| + 1..] == ext;
    assert i == |stem|;
    assert name[..|stem|] == stem;
  }

  /** A written decimal holds only a sign, digits and a point: no separator and no '@'. */
  lemma RenderedCharacters(d: Decimal)
    requires d.WellFormed()
    ensures forall k :: 0 <= k < |d.Render()| ==> !IsSeparator(d.Render()[k]) && d.Render()[k] != '@'
  {
    var text := d.Render();
    forall k | 0 <= k < |text| ensures text[k] == '-' || text[k] == '+' || text[k] == '.' || IsDigit(text[k]) {
      assert AllDigits(d.whole) && AllDigits(d.fraction);
    }
  }

  /** Joining names without separators around a non-separator gives a name without separators. */
  lemma PlainJoin(a: string, c: char, b: string)
    requires forall k :: 0 <= k < |a| ==> !IsSeparator(a[k])
    requires forall k :: 0 <= k < |b| ==> !IsSeparator(b[k])
    requires !IsSeparator(c)
    ensures forall k :: 0 <= k < |a + [c] + b| ==> !IsSeparator((a + [c] + b)[k])
  {
  }

  /** The file-name convention round-trips: "<base>@<thr>.<ext>" yields thr when 0 < thr < 1. */
  lemma ThresholdFromConventionalName(base: string, d: Decimal, ext: string, defaultThr: real)
    requires d.WellFormed() && 0.0 < d.Value() < 1.0
    requires ext != [] && '.' !in ext
    requires forall k :: 0 <= k < |base| ==> !IsSeparator(base[k])
    requires forall k :: 0 <= k < |ext| ==> !IsSeparator(ext[k])
    ensures ParseThresholdFromName(base + "@" + d.Render() + "." + ext, defaultThr) == d.Value()
  {
    var text := d.Render();
    var stem := base + ['@'] + text;
    var name := stem + ['.'] + ext;
    assert base + "@" + text + "." + ext == name;
    RenderedCharacters(d);
    PlainJoin(base, '@', text);
    PlainJoin(stem, '.', ext);
    FileNameOfPlainName(name);
    StemOfJoin(stem, ext);
    assert Stem(FileName(name)) == stem;
    assert '@' in stem by {
      assert stem[|base|] == '@';
    }
    assert '@' !in text;
    AfterLastOfJoin(base, '@', text);
    ParseRendered(d);
  }

  /** "0.72" is a well-formed decimal of value 0.72. */
  lemma PointSeventyTwo()
    ensures var d := Decimal(NoSign, "0", true, "72");
      d.WellFormed() && d.Render() == "0.72" && d.Value() == 0.72
  {
    assert DigitsValue("0") == 0;
    assert DigitsValue("7") == 7;
    assert DigitsValue("72") == 72;
    assert Pow10(2) == 100;
  }

  /**
   * Every template gets a threshold strictly between 0 and 1: the one its
   * name asks for, or MATCH_THRESHOLD when its stem has no '@'.
   */
  lemma LoadedThresholdInRange(filename: string)
    ensures 0.0 < ParseThresholdFromName(filename, MatchThreshold) < 1.0
    ensures '@' !in Stem(FileName(filename)) ==> ParseThresholdFromName(filename, MatchThreshold) == MatchThreshold
  {
  }

  /** The example in the source: "wheat lvl 1@0.72.png" sets the threshold to 0.72. */
  lemma WheatExample(filename: string, defaultThr: real)
    requires filename == "wheat lvl 1@0.72.png"
    ensures ParseThresholdFromName(filename, defaultThr) == 0.72
  {
    var d := Decimal(NoSign, "0", true, "72");
    PointSeventyTwo();
    assert "wheat lvl 1" + "@" + "0.72" + "." + "png" == filename;
    ThresholdFromConventionalName("wheat lvl 1", d, "png", defaultThr);
  }
}
