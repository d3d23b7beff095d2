/** encode_string, decode_string (encoding.c) and argon2_encodedlen (argon2.c): the text form of an Argon2 hash. */
module HashString {
  import opened Words
  import opened HashStreams
  import opened Base64
  import opened Decimal
  import opened Argon2Index
  import opened Argon2Core
  import opened Argon2Segment

  /** argon2_type2string */
  function TypeName(kind: Kind): (s: seq<char>)
  {
    match kind
    case Argon2d => "argon2d"
    case Argon2i => "argon2i"
    case Argon2id => "argon2id"
  }

  /** The text of encoded bytes. */
  function Base64Text(s: seq<byte>): (c: seq<char>)
    ensures |c| == EncodedLength(|s|)
  {
    var t := Encode(s);
    seq(|t|, k requires 0 <= k < |t| => CharCode(t[k]))
  }

  lemma Base64Chars(s: seq<byte>)
    ensures AreChars(Base64Text(s), Encode(s))
    ensures forall c :: AreChars(c, Encode(s)) ==> c == Base64Text(s)
  {
  }

  /** What a hash string records. */
  datatype Parsed = Parsed(version: uint32, mCost: uint32, tCost: uint32, lanes: uint32, salt: seq<byte>,
                           out: seq<byte>)

  function Costs(x: Parsed): seq<char>
  {
    "$m=" + Print(x.mCost as int) + (",t=" + Print(x.tCost as int) + (",p=" + Print(x.lanes as int)))
  }

  function Version(x: Parsed, versioned: bool): seq<char> { if versioned then "$v=" + Print(x.version as int) else "" }

  function Binary(x: Parsed): seq<char> { ("$" + Base64Text(x.salt)) + ("$" + Base64Text(x.out)) }

  function Prefix(kind: Kind): seq<char> { "$" + TypeName(kind) }

  /** The printed form; the version may be missing in strings of the first version. */
  function Form(kind: Kind, x: Parsed, versioned: bool): seq<char>
  {
    Prefix(kind) + (Version(x, versioned) + (Costs(x) + Binary(x)))
  }

  /** The printed form in one line. */
  lemma FormText(kind: Kind, x: Parsed)
    ensures Form(kind, x, true) ==
            (if kind == Argon2d then "$argon2d" else if kind == Argon2i then "$argon2i" else "$argon2id")
            + "$v=" + Print(x.version as int) + "$m=" + Print(x.mCost as int) + ",t=" + Print(x.tCost as int)
            + ",p=" + Print(x.lanes as int) + "$" + Base64Text(x.salt) + "$" + Base64Text(x.out)
  {
    hide Print, Base64Text;
    PrefixText(kind);
    hide Prefix;
    var v, m, t, p := Print(x.version as int), Print(x.mCost as int), Print(x.tCost as int), Print(x.lanes as int);
    var a, b := Base64Text(x.salt), Base64Text(x.out);
    assert Version(x, true) == "$v=" + v;
    CostsText(Prefix(kind) + "$v=" + v, m, t, p);
    BinaryText(Prefix(kind) + "$v=" + v + "$m=" + m + ",t=" + t + ",p=" + p, a, b);
    Regroup(Prefix(kind), "$v=", v, Costs(x), Binary(x));
  }

  lemma PrefixText(kind: Kind)
    ensures Prefix(kind) == if kind == Argon2d then "$argon2d" else if kind == Argon2i then "$argon2i" else "$argon2id"
  {
  }

  lemma CostsText(h: seq<char>, m: seq<char>, t: seq<char>, p: seq<char>)
    ensures h + ("$m=" + m + (",t=" + t + (",p=" + p))) == h + "$m=" + m + ",t=" + t + ",p=" + p
  {
  }

  lemma BinaryText(h: seq<char>, a: seq<char>, b: seq<char>)
    ensures h + (("$" + a) + ("$" + b)) == h + "$" + a + "$" + b
  {
  }

  lemma Regroup(a: seq<char>, b: seq<char>, c: seq<char>, d: seq<char>, e: seq<char>)
    ensures a + ((b + c) + (d + e)) == ((a + b + c) + d) + e
  {
  }

  // ---- parsing ----

  /** strncmp(str, prefix, strlen(prefix)) == 0 */
  predicate Matches(text: seq<char>, p: nat, prefix: seq<char>)
  {
    p + |prefix| <= |text| && text[p..p + |prefix|] == prefix
  }

  /** CC(prefix); DECIMAL_U32(..) */
  function ParseNumber(text: seq<char>, p: nat, prefix: seq<char>): (r: Option<(nat, uint32)>)
    ensures r.Some? ==> p < r.value.0 <= |text|
  {
    if !Matches(text, p, prefix) then None
    else
      var s := DigitsAt(text, p + |prefix|);
      if Minimal(s) && Number(s) <= 0xFFFF_FFFF then Some((p + |prefix| + |s|, Number(s) as uint32)) else None
  }

  /** CC("$"); BIN(..) */
  function ParseBytes(text: seq<char>, p: nat, cap: nat): (r: Option<(nat, seq<byte>)>)
    ensures r.Some? ==> p < r.value.0 <= |text| && |r.value.1| <= cap
  {
    if !Matches(text, p, "$") then None
    else
      var t := Values(text, p + 1);
      var s :- Decode(t);
      if |s| <= cap then Some((p + 1 + |t|, s)) else None
  }

  /** CC_opt("$v=", DECIMAL_U32(..)) */
  function ParseVersion(text: seq<char>, p: nat): (r: Option<(nat, uint32)>)
    ensures r.Some? && p <= |text| ==> p <= r.value.0 <= |text|
  {
    if Matches(text, p, "$v=") then ParseNumber(text, p, "$v=") else Some((p, VERSION_10))
  }

  function ParseCosts(text: seq<char>, p: nat): (r: Option<(nat, uint32, uint32, uint32)>)
    ensures r.Some? ==> p < r.value.0 <= |text|
  {
    var m :- ParseNumber(text, p, "$m=");
    var t :- ParseNumber(text, m.0, ",t=");
    var l :- ParseNumber(text, t.0, ",p=");
    Some((l.0, m.1, t.1, l.1))
  }

  function ParseBinary(text: seq<char>, p: nat, saltCap: nat, outCap: nat): (r: Option<(nat, seq<byte>, seq<byte>)>)
    ensures r.Some? ==> p < r.value.0 <= |text| && |r.value.1| <= saltCap && |r.value.2| <= outCap
  {
    var salt :- ParseBytes(text, p, saltCap);
    var out :- ParseBytes(text, salt.0, outCap);
    Some((out.0, salt.1, out.1))
  }

  /** The fields of the text and the position after them. */
  function Parse(text: seq<char>, kind: Kind, saltCap: nat, outCap: nat): (r: Option<(nat, Parsed)>)
    ensures r.Some? ==> r.value.0 <= |text| && |r.value.1.salt| <= saltCap && |r.value.1.out| <= outCap
  {
    if !Matches(text, 0, Prefix(kind)) then None
    else
      var v :- ParseVersion(text, |Prefix(kind)|);
      var c :- ParseCosts(text, v.0);
      var b :- ParseBinary(text, c.0, saltCap, outCap);
      Some((b.0, Parsed(v.1, c.1, c.2, c.3, b.1, b.2)))
  }

  // ---- each piece is read back, and only that ----

  lemma MatchesSplit(text: seq<char>, p: nat, a: seq<char>, b: seq<char>)
    ensures Matches(text, p, a + b) <==> Matches(text, p, a) && Matches(text, p + |a|, b)
  {
    if p + |a| + |b| <= |text| {
      assert text[p..p + |a| + |b|] == text[p..p + |a|] + text[p + |a|..p + |a| + |b|];
      if Matches(text, p, a + b) {
        assert text[p..p + |a|] == (a + b)[..|a|] && text[p + |a|..p + |a| + |b|] == (a + b)[|a|..];
      }
    }
  }

  lemma DigitsOfMatch(text: seq<char>, p: nat, n: nat)
    requires Matches(text, p, Print(n)) && !IsDigit(Peek(text, p + |Print(n)|))
    ensures DigitsAt(text, p) == Print(n) && Minimal(Print(n)) && Number(Print(n)) == n
  {
    NumberPrint(n);
    hide Print, Number, DigitsAt;
    DigitsOfText(text, p, Print(n));
  }

  lemma PrintedNumber(text: seq<char>, p: nat, prefix: seq<char>, n: uint32)
    requires Matches(text, p, prefix + Print(n as int)) && !IsDigit(Peek(text, p + |prefix| + |Print(n as int)|))
    ensures ParseNumber(text, p, prefix) == Some((p + |prefix| + |Print(n as int)|, n))
  {
    hide Print, Number, DigitsAt, Matches, Minimal;
    MatchesSplit(text, p, prefix, Print(n as int));
    DigitsOfMatch(text, p + |prefix|, n as int);
  }

  lemma DigitsMatch(text: seq<char>, p: nat)
    requires p <= |text| && Minimal(DigitsAt(text, p))
    ensures Matches(text, p, DigitsAt(text, p)) && Print(Number(DigitsAt(text, p))) == DigitsAt(text, p)
  {
    hide Print, Number, Minimal;
    PrintNumber(DigitsAt(text, p));
  }

  lemma NumberRead(text: seq<char>, p: nat, prefix: seq<char>)
    requires ParseNumber(text, p, prefix).Some?
    ensures var (q, n) := ParseNumber(text, p, prefix).value;
            Matches(text, p, prefix + Print(n as int)) && q == p + |prefix| + |Print(n as int)|
  {
    assert p + |prefix| <= |text|;
    hide Print, Number, DigitsAt, Matches, Minimal;
    DigitsMatch(text, p + |prefix|);
    MatchesSplit(text, p, prefix, DigitsAt(text, p + |prefix|));
  }

  lemma ValuesOfMatch(text: seq<char>, p: nat, s: seq<byte>)
    requires Matches(text, p, Base64Text(s)) && CharValue(Peek(text, p + EncodedLength(|s|))) == 255
    ensures Values(text, p) == Encode(s) && Decode(Encode(s)) == Some(s)
  {
    Base64Chars(s);
    DecodeEncode(s);
    hide Encode, Decode, Values, CharCode, CharValue, EncodedLength, Base64Text;
    ValuesOfText(text, p, Encode(s));
  }

  lemma PrintedBytes(text: seq<char>, p: nat, s: seq<byte>, cap: nat)
    requires Matches(text, p, "$" + Base64Text(s)) && |s| <= cap
    requires CharValue(Peek(text, p + 1 + EncodedLength(|s|))) == 255
    ensures ParseBytes(text, p, cap) == Some((p + 1 + EncodedLength(|s|), s))
  {
    hide Encode, Decode, Values, CharValue, EncodedLength, Base64Text, Matches;
    MatchesSplit(text, p, "$", Base64Text(s));
    ValuesOfMatch(text, p + 1, s);
  }

  lemma ValuesMatch(text: seq<char>, p: nat)
    requires p <= |text| && Decode(Values(text, p)).Some? && SevenBit(text)
    ensures Matches(text, p, Base64Text(Decode(Values(text, p)).value))
    ensures |Values(text, p)| == |Base64Text(Decode(Values(text, p)).value)|
  {
    hide Decode, Encode, Values, CharCode, EncodedLength, Base64Text;
    Reencodes(text, p);
    Base64Chars(Decode(Values(text, p)).value);
  }

  lemma BytesRead(text: seq<char>, p: nat, cap: nat, q: nat, s: seq<byte>)
    requires ParseBytes(text, p, cap) == Some((q, s)) && SevenBit(text)
    ensures Matches(text, p, "$" + Base64Text(s)) && q == p + |"$" + Base64Text(s)|
  {
    assert p + 1 <= |text|;
    hide Decode, Encode, Values, EncodedLength, Base64Text, Matches;
    ValuesMatch(text, p + 1);
    MatchesSplit(text, p, "$", Base64Text(Decode(Values(text, p + 1)).value));
  }

  // ---- the whole text ----

  /** Characters that end a number and a Base64 text. */
  lemma Separator(text: seq<char>, p: nat, a: seq<char>, b: seq<char>)
    requires Matches(text, p, a + b) && a != [] && (a[0] == '$' || a[0] == ',')
    ensures !IsDigit(Peek(text, p)) && CharValue(Peek(text, p)) == 255
  {
    assert text[p..p + |a + b|][0] == (a + b)[0];
  }

  lemma TextEnd(text: seq<char>)
    ensures !IsDigit(Peek(text, |text|)) && CharValue(Peek(text, |text|)) == 255
  {
  }

  /** The three costs are read back. */
  lemma PrintedCosts(text: seq<char>, p: nat, x: Parsed)
    requires Matches(text, p, Costs(x)) && !IsDigit(Peek(text, p + |Costs(x)|))
    ensures ParseCosts(text, p) == Some((p + |Costs(x)|, x.mCost, x.tCost, x.lanes))
  {
    hide Print, Number, DigitsAt, Matches, Minimal, ParseNumber;
    var m, t, l := "$m=" + Print(x.mCost as int), ",t=" + Print(x.tCost as int), ",p=" + Print(x.lanes as int);
    MatchesSplit(text, p, m, t + l);
    MatchesSplit(text, p + |m|, t, l);
    Separator(text, p + |m|, ",t=", Print(x.tCost as int));
    Separator(text, p + |m| + |t|, ",p=", Print(x.lanes as int));
    PrintedNumber(text, p, "$m=", x.mCost);
    PrintedNumber(text, p + |m|, ",t=", x.tCost);
    PrintedNumber(text, p + |m| + |t|, ",p=", x.lanes);
  }

  lemma CostsRead(text: seq<char>, p: nat, x: Parsed)
    requires ParseCosts(text, p).Some?
    requires var c := ParseCosts(text, p).value; x.mCost == c.1 && x.tCost == c.2 && x.lanes == c.3
    ensures Matches(text, p, Costs(x)) && ParseCosts(text, p).value.0 == p + |Costs(x)|
  {
    hide Print, Number, DigitsAt, Matches, Minimal, ParseNumber;
    var m := ParseNumber(text, p, "$m=").value;
    var t := ParseNumber(text, m.0, ",t=").value;
    NumberRead(text, p, "$m=");
    NumberRead(text, m.0, ",t=");
    NumberRead(text, t.0, ",p=");
    var a, b, c := "$m=" + Print(x.mCost as int), ",t=" + Print(x.tCost as int), ",p=" + Print(x.lanes as int);
    MatchesSplit(text, m.0, b, c);
    MatchesSplit(text, p, a, b + c);
  }

  /** Salt and output are read back. */
  lemma PrintedBinary(text: seq<char>, p: nat, x: Parsed, saltCap: nat, outCap: nat)
    requires Matches(text, p, Binary(x)) && |x.salt| <= saltCap && |x.out| <= outCap
    requires CharValue(Peek(text, p + |Binary(x)|)) == 255
    ensures ParseBinary(text, p, saltCap, outCap) == Some((p + |Binary(x)|, x.salt, x.out))
  {
    hide Matches, ParseBytes, EncodedLength, Base64Text;
    var salt, out := "$" + Base64Text(x.salt), "$" + Base64Text(x.out);
    MatchesSplit(text, p, salt, out);
    Separator(text, p + |salt|, "$", Base64Text(x.out));
    PrintedBytes(text, p, x.salt, saltCap);
    PrintedBytes(text, p + |salt|, x.out, outCap);
  }

  lemma BinaryRead(text: seq<char>, p: nat, saltCap: nat, outCap: nat, x: Parsed)
    requires ParseBinary(text, p, saltCap, outCap).Some? && SevenBit(text)
    requires var b := ParseBinary(text, p, saltCap, outCap).value; x.salt == b.1 && x.out == b.2
    ensures Matches(text, p, Binary(x)) && ParseBinary(text, p, saltCap, outCap).value.0 == p + |Binary(x)|
  {
    hide Matches, ParseBytes, EncodedLength, Base64Text;
    var salt := ParseBytes(text, p, saltCap).value;
    var out := ParseBytes(text, salt.0, outCap).value;
    BytesRead(text, p, saltCap, salt.0, salt.1);
    BytesRead(text, salt.0, outCap, out.0, out.1);
    MatchesSplit(text, p, "$" + Base64Text(x.salt), "$" + Base64Text(x.out));
  }

  /** The version is read back, or its absence noticed. */
  lemma PrintedVersion(text: seq<char>, p: nat, x: Parsed, versioned: bool)
    requires Matches(text, p, Version(x, versioned)) && Matches(text, p + |Version(x, versioned)|, Costs(x))
    requires versioned || x.version == VERSION_10
    ensures ParseVersion(text, p) == Some((p + |Version(x, versioned)|, x.version))
  {
    hide Print, Number, DigitsAt, Matches, Minimal, ParseNumber, Costs;
    CostsStart(text, p + |Version(x, versioned)|, x);
    if versioned {
      MatchesSplit(text, p, "$v=", Print(x.version as int));
      PrintedNumber(text, p, "$v=", x.version);
    }
  }

  lemma VersionRead(text: seq<char>, p: nat, x: Parsed) returns (versioned: bool)
    requires p <= |text| && ParseVersion(text, p).Some? && x.version == ParseVersion(text, p).value.1
    ensures Matches(text, p, Version(x, versioned)) && ParseVersion(text, p).value.0 == p + |Version(x, versioned)|
    ensures versioned || x.version == VERSION_10
  {
    versioned := Matches(text, p, "$v=");
    MatchesNothing(text, p);
    hide Print, Number, DigitsAt, Matches, Minimal, ParseNumber;
    if versioned {
      NumberRead(text, p, "$v=");
    }
  }

  lemma MatchesNothing(text: seq<char>, p: nat)
    requires p <= |text|
    ensures Matches(text, p, "")
  {
  }

  /** The costs begin with a separator that is not a version. */
  lemma CostsStart(text: seq<char>, p: nat, x: Parsed)
    requires Matches(text, p, Costs(x))
    ensures !IsDigit(Peek(text, p)) && !Matches(text, p, "$v=")
  {
    var rest := Print(x.mCost as int) + (",t=" + Print(x.tCost as int) + (",p=" + Print(x.lanes as int)));
    assert Costs(x) == "$m=" + rest;
    MatchesSplit(text, p, "$m=", rest);
    assert text[p..p + 3][1] == 'm' && text[p..p + 3][0] == '$';
  }

  /** Parse from its parts. */
  lemma ParseFrom(text: seq<char>, kind: Kind, saltCap: nat, outCap: nat, v: nat, c: nat, x: Parsed, end: nat)
    requires Matches(text, 0, Prefix(kind)) && ParseVersion(text, |Prefix(kind)|) == Some((v, x.version))
    requires ParseCosts(text, v) == Some((c, x.mCost, x.tCost, x.lanes))
    requires ParseBinary(text, c, saltCap, outCap) == Some((end, x.salt, x.out))
    ensures Parse(text, kind, saltCap, outCap) == Some((end, x))
  {
    hide Matches, ParseVersion, ParseCosts, ParseBinary, Prefix;
  }

  /** Where the parts of a printed form stand. */
  lemma FormSplit(text: seq<char>, kind: Kind, x: Parsed, versioned: bool)
    ensures Matches(text, 0, Form(kind, x, versioned)) <==>
            Matches(text, 0, Prefix(kind)) && Matches(text, |Prefix(kind)|, Version(x, versioned))
            && Matches(text, |Prefix(kind)| + |Version(x, versioned)|, Costs(x))
            && Matches(text, |Prefix(kind)| + |Version(x, versioned)| + |Costs(x)|, Binary(x))
    ensures |Form(kind, x, versioned)| == |Prefix(kind)| + |Version(x, versioned)| + |Costs(x)| + |Binary(x)|
  {
    hide Matches, Costs, Version, Binary, Prefix;
    var p, v, c, b := Prefix(kind), Version(x, versioned), Costs(x), Binary(x);
    MatchesSplit(text, 0, p, v + (c + b));
    MatchesSplit(text, |p|, v, c + b);
    MatchesSplit(text, |p| + |v|, c, b);
  }

  /** The printed form is read back completely. */
  lemma ParseForm(kind: Kind, x: Parsed, versioned: bool, saltCap: nat, outCap: nat)
    requires |x.salt| <= saltCap && |x.out| <= outCap && (versioned || x.version == VERSION_10)
    ensures Parse(Form(kind, x, versioned), kind, saltCap, outCap) == Some((|Form(kind, x, versioned)|, x))
  {
    hide Matches, Parse, ParseVersion, ParseCosts, ParseBinary, Costs, Version, Binary, Prefix, Form, IsDigit,
         CharValue, Peek;
    var text := Form(kind, x, versioned);
    MatchesItself(text);
    FormSplit(text, kind, x, versioned);
    var v := |Prefix(kind)|;
    var c := v + |Version(x, versioned)|;
    var b := c + |Costs(x)|;
    PrintedVersion(text, v, x, versioned);
    BinaryStart(text, b, x);
    PrintedCosts(text, c, x);
    TextEnd(text);
    PrintedBinary(text, b, x, saltCap, outCap);
    ParseFrom(text, kind, saltCap, outCap, c, b, x, |text|);
  }

  lemma MatchesItself(text: seq<char>)
    ensures Matches(text, 0, text)
  {
  }

  lemma BinaryStart(text: seq<char>, p: nat, x: Parsed)
    requires Matches(text, p, Binary(x))
    ensures !IsDigit(Peek(text, p))
  {
    hide Matches, EncodedLength, Base64Text;
    MatchesSplit(text, p, "$" + Base64Text(x.salt), "$" + Base64Text(x.out));
    Separator(text, p, "$", Base64Text(x.salt));
  }

  lemma ParseParts(text: seq<char>, kind: Kind, saltCap: nat, outCap: nat) returns (v: nat, c: nat)
    requires Parse(text, kind, saltCap, outCap).Some?
    ensures var (end, x) := Parse(text, kind, saltCap, outCap).value;
            && Matches(text, 0, Prefix(kind)) && ParseVersion(text, |Prefix(kind)|) == Some((v, x.version))
            && ParseCosts(text, v) == Some((c, x.mCost, x.tCost, x.lanes))
            && ParseBinary(text, c, saltCap, outCap) == Some((end, x.salt, x.out))
  {
    hide Matches, ParseVersion, ParseCosts, ParseBinary, Prefix;
    v := ParseVersion(text, |Prefix(kind)|).value.0;
    c := ParseCosts(text, v).value.0;
  }

  /** What is parsed from 7-bit characters is the printed form of what it gives, up to the position reached. */
  lemma SevenBitRead(text: seq<char>, kind: Kind, saltCap: nat, outCap: nat) returns (versioned: bool)
    requires Parse(text, kind, saltCap, outCap).Some? && SevenBit(text)
    ensures var (end, x) := Parse(text, kind, saltCap, outCap).value;
            Matches(text, 0, Form(kind, x, versioned)) && end == |Form(kind, x, versioned)|
              && (versioned || x.version == VERSION_10)
  {
    hide Parse, ParseVersion, ParseCosts, ParseBinary, Costs, Version, Binary, Prefix, Form;
    var v, c := ParseParts(text, kind, saltCap, outCap);
    var (end, x) := Parse(text, kind, saltCap, outCap).value;
    assert |Prefix(kind)| <= |text|;
    hide Matches;
    versioned := VersionRead(text, |Prefix(kind)|, x);
    CostsRead(text, v, x);
    BinaryRead(text, c, saltCap, outCap, x);
    FormSplit(text, kind, x, versioned);
  }

  // ---- characters that are not 7-bit ----

  /** A separator stands in a text exactly where it stands in what is read in its place. */
  lemma MatchesBlur(text: seq<char>, p: nat, prefix: seq<char>)
    requires SevenBit(prefix) && '/' !in prefix
    ensures Matches(Blurred(text), p, prefix) <==> Matches(text, p, prefix)
  {
    if p + |prefix| <= |text| {
      forall k | 0 <= k < |prefix|
        ensures Blurred(text)[p..p + |prefix|][k] == prefix[k] <==> text[p..p + |prefix|][k] == prefix[k]
      {
        assert prefix[k] in prefix;
      }
    }
  }

  lemma {:induction false} DigitsBlur(text: seq<char>, p: nat)
    ensures DigitsAt(Blurred(text), p) == DigitsAt(text, p)
    decreases if p < |text| then |text| - p else 0
  {
    if p < |text| {
      DigitsBlur(text, p + 1);
    }
  }

  lemma {:induction false} ValuesBlur(text: seq<char>, p: nat)
    ensures Values(Blurred(text), p) == Values(text, p)
    decreases if p < |text| then |text| - p else 0
  {
    if p < |text| {
      CharsInverse(0, text[p]);
      hide CharValue, Blur;
      ValuesBlur(text, p + 1);
    }
  }

  lemma NumberBlur(text: seq<char>, p: nat, prefix: seq<char>)
    requires SevenBit(prefix) && '/' !in prefix
    ensures ParseNumber(Blurred(text), p, prefix) == ParseNumber(text, p, prefix)
  {
    hide Matches, DigitsAt, Minimal, Number, Blurred;
    MatchesBlur(text, p, prefix);
    DigitsBlur(text, p + |prefix|);
  }

  lemma BytesBlur(text: seq<char>, p: nat, cap: nat)
    ensures ParseBytes(Blurred(text), p, cap) == ParseBytes(text, p, cap)
  {
    hide Matches, Values, Decode, Blurred;
    MatchesBlur(text, p, "$");
    ValuesBlur(text, p + 1);
  }

  lemma VersionBlur(text: seq<char>, p: nat)
    ensures ParseVersion(Blurred(text), p) == ParseVersion(text, p)
  {
    hide Matches, ParseNumber, Blurred;
    MatchesBlur(text, p, "$v=");
    NumberBlur(text, p, "$v=");
  }

  lemma CostsBlur(text: seq<char>, p: nat)
    ensures ParseCosts(Blurred(text), p) == ParseCosts(text, p)
  {
    hide ParseNumber, Blurred;
    NumberBlur(text, p, "$m=");
    var m := ParseNumber(text, p, "$m=");
    if m.Some? {
      NumberBlur(text, m.value.0, ",t=");
      var t := ParseNumber(text, m.value.0, ",t=");
      if t.Some? {
        NumberBlur(text, t.value.0, ",p=");
      }
    }
  }

  lemma BinaryBlur(text: seq<char>, p: nat, saltCap: nat, outCap: nat)
    ensures ParseBinary(Blurred(text), p, saltCap, outCap) == ParseBinary(text, p, saltCap, outCap)
  {
    hide ParseBytes, Blurred;
    BytesBlur(text, p, saltCap);
    var salt := ParseBytes(text, p, saltCap);
    if salt.Some? {
      BytesBlur(text, salt.value.0, outCap);
    }
  }

  /** A text is parsed like the text with '/' for every character that is not 7-bit. */
  lemma ParseBlur(text: seq<char>, kind: Kind, saltCap: nat, outCap: nat)
    ensures Parse(Blurred(text), kind, saltCap, outCap) == Parse(text, kind, saltCap, outCap)
  {
    hide Matches, ParseVersion, ParseCosts, ParseBinary, Blurred;
    MatchesBlur(text, 0, Prefix(kind));
    hide Prefix;
    VersionBlur(text, |Prefix(kind)|);
    var v := ParseVersion(text, |Prefix(kind)|);
    if v.Some? {
      CostsBlur(text, v.value.0);
      var c := ParseCosts(text, v.value.0);
      if c.Some? {
        BinaryBlur(text, c.value.0, saltCap, outCap);
      }
    }
  }

  ghost predicate Plain(s: seq<char>)
  {
    forall k :: 0 <= k < |s| ==> 0 < s[k] as int < 128
  }

  lemma PlainJoin(a: seq<char>, b: seq<char>)
    requires Plain(a) && Plain(b)
    ensures Plain(a + b)
  {
  }

  lemma DigitsPlain(s: seq<char>)
    requires forall k :: 0 <= k < |s| ==> IsDigit(s[k])
    ensures Plain(s)
  {
  }

  lemma BytesPlain(s: seq<byte>)
    ensures Plain("$" + Base64Text(s))
  {
    Base64Chars(s);
    PrintedSevenBit(Base64Text(s), Encode(s));
    PlainJoin("$", Base64Text(s));
  }

  lemma NumberPlain(prefix: seq<char>, n: nat)
    requires Plain(prefix)
    ensures Plain(prefix + Print(n))
  {
    DigitsPlain(Print(n));
    PlainJoin(prefix, Print(n));
  }

  /** Printed forms have 7-bit characters only, and no terminating zero. */
  lemma FormPlain(kind: Kind, x: Parsed, versioned: bool)
    ensures Plain(Form(kind, x, versioned))
  {
    assert Plain(Prefix(kind));
    NumberPlain("$v=", x.version as int);
    NumberPlain("$m=", x.mCost as int);
    NumberPlain(",t=", x.tCost as int);
    NumberPlain(",p=", x.lanes as int);
    BytesPlain(x.salt);
    BytesPlain(x.out);
    hide Plain, Print, Base64Text, EncodedLength, Prefix;
    var m, t, l := "$m=" + Print(x.mCost as int), ",t=" + Print(x.tCost as int), ",p=" + Print(x.lanes as int);
    PlainJoin(t, l);
    PlainJoin(m, t + l);
    PlainJoin("$" + Base64Text(x.salt), "$" + Base64Text(x.out));
    PlainJoin(Costs(x), Binary(x));
    PlainJoin(Version(x, versioned), Costs(x) + Binary(x));
    PlainJoin(Prefix(kind), Version(x, versioned) + (Costs(x) + Binary(x)));
  }

  /** What is parsed, up to the position reached, is the printed form of what it gives if and only if it has 7-bit
      characters only; otherwise the printed form has '/' for each other character. */
  lemma ParseRead(text: seq<char>, kind: Kind, saltCap: nat, outCap: nat) returns (versioned: bool)
    requires Parse(text, kind, saltCap, outCap).Some?
    ensures var (end, x) := Parse(text, kind, saltCap, outCap).value;
            && Blurred(text[..end]) == Form(kind, x, versioned)
            && (text[..end] == Form(kind, x, versioned) <==> SevenBit(text[..end]))
            && (versioned || x.version == VERSION_10)
  {
    var (end, x) := Parse(text, kind, saltCap, outCap).value;
    assert SevenBit(Blurred(text));
    assert Blurred(text)[0..end] == Blurred(text[..end]);
    assert SevenBit(text[..end]) ==> Blurred(text[..end]) == text[..end];
    hide Parse, Form;
    ParseBlur(text, kind, saltCap, outCap);
    versioned := SevenBitRead(Blurred(text), kind, saltCap, outCap);
    FormPlain(kind, x, versioned);
  }

  // ---- decode_string ----

  /** CC(prefix); DECIMAL_U32(..), with an unsigned long of either width. */
  method DecodeNumber(text: seq<char>, pos: nat, prefix: seq<char>, max: nat) returns (r: Option<(nat, uint32)>)
    requires pos <= |text| && max >= 0xFFFF_FFFF
    ensures r == ParseNumber(text, pos, prefix)
  {
    hide DigitsAt, Number, Minimal;
    if !Matches(text, pos, prefix) {
      return None;
    }
    var next, v := DecodeDecimal(text, pos + |prefix|, max);
    if next == -1 || v > 0xFFFF_FFFF {
      return None;
    }
    return Some((next as nat, v as uint32));
  }

  /** CC("$"); BIN(..) into a buffer of the given capacity. */
  method DecodeBytes(text: seq<char>, pos: nat, cap: nat) returns (r: Option<(nat, seq<byte>)>)
    requires pos <= |text| && EightBit(text)
    ensures r == ParseBytes(text, pos, cap)
  {
    hide Decode, Values;
    if !Matches(text, pos, "$") {
      return None;
    }
    var buf := new byte[cap];
    var next, len := FromBase64(buf, cap, text, pos + 1);
    if next == -1 {
      return None;
    }
    return Some((next as nat, buf[..len]));
  }

  /** All fields in order; the first failure ends it. */
  method DecodeFields(text: seq<char>, kind: Kind, saltCap: nat, outCap: nat, max: nat)
    returns (r: Option<(nat, Parsed)>)
    requires EightBit(text) && max >= 0xFFFF_FFFF
    ensures r == Parse(text, kind, saltCap, outCap)
  {
    hide ParseNumber, ParseBytes;
    if !Matches(text, 0, Prefix(kind)) {
      return None;
    }
    var v := Some((|Prefix(kind)|, VERSION_10));
    if Matches(text, |Prefix(kind)|, "$v=") {
      v := DecodeNumber(text, |Prefix(kind)|, "$v=", max);
      if v.None? { return None; }
    }
    var m := DecodeNumber(text, v.value.0, "$m=", max);
    if m.None? { return None; }
    var t := DecodeNumber(text, m.value.0, ",t=", max);
    if t.None? { return None; }
    var l := DecodeNumber(text, t.value.0, ",p=", max);
    if l.None? { return None; }
    var salt := DecodeBytes(text, l.value.0, saltCap);
    if salt.None? { return None; }
    var out := DecodeBytes(text, salt.value.0, outCap);
    if out.None? { return None; }
    return Some((out.value.0, Parsed(v.value.1, m.value.1, t.value.1, l.value.1, salt.value.1, out.value.1)));
  }

  /** The context after the fields have been stored; the password is the caller's. */
  function Filled(ctx: Context, x: Parsed): Context
  {
    Context(Data(x.out), ctx.pwd, Data(x.salt), Null(0), Null(0), x.tCost, x.mCost, x.lanes, x.lanes, x.version, false,
            false)
  }

  /** The outcome of decode_string. */
  function Outcome(text: seq<char>, kind: Kind, ctx: Context, maxMemory: uint32): Code
    requires ctx.Sized()
  {
    match Parse(text, kind, ctx.salt.Length() as int, ctx.out.Length() as int)
    case None => DecodingFail
    case Some(r) =>
      if ValidateInputs(Filled(ctx, r.1), maxMemory) != Code.Ok then ValidateInputs(Filled(ctx, r.1), maxMemory)
      else if Peek(text, r.0) == '\0' then Code.Ok else DecodingFail
  }

  /** decode_string. The buffers of ctx bound the salt and the output. */
  method DecodeString(text: seq<char>, kind: Kind, ctx: Context, maxMemory: uint32, max: nat)
    returns (code: Code, filled: Context)
    requires ctx.Sized() && ctx.salt.Data? && ctx.out.Data? && EightBit(text) && max >= 0xFFFF_FFFF
    ensures code == Outcome(text, kind, ctx, maxMemory)
    ensures code == Code.Ok ==>
              Parse(text, kind, |ctx.salt.bytes|, |ctx.out.bytes|).Some?
              && filled == Filled(ctx, Parse(text, kind, |ctx.salt.bytes|, |ctx.out.bytes|).value.1)
    ensures code == Code.Ok ==>
              var x := Parse(text, kind, |ctx.salt.bytes|, |ctx.out.bytes|).value.1;
              && filled.version == x.version && filled.mCost == x.mCost && filled.tCost == x.tCost
              && filled.lanes == filled.threads == x.lanes && filled.salt == Data(x.salt) && filled.out == Data(x.out)
              && filled.pwd == ctx.pwd && filled.secret == filled.ad == Null(0)
  {
    hide Parse, ValidateInputs;
    filled := ctx;
    var r := DecodeFields(text, kind, |ctx.salt.bytes|, |ctx.out.bytes|, max);
    if r.None? {
      return DecodingFail, filled;
    }
    filled := Filled(ctx, r.value.1);
    var validation := ValidateInputs(filled, maxMemory);
    if validation != Code.Ok {
      return validation, filled;
    }
    code := if Peek(text, r.value.0) == '\0' then Code.Ok else DecodingFail;
  }

  // ---- encode_string ----

  /** SS: copies s and its terminating zero if they fit below limit. */
  method Put(dst: array<char>, limit: nat, at: nat, s: seq<char>) returns (ok: bool)
    requires at <= limit <= dst.Length
    modifies dst
    ensures ok <==> at + |s| < limit
    ensures ok ==> dst[..at + |s|] == old(dst[..at]) + s && dst[at + |s|] == '\0'
  {
    if |s| >= limit - at {
      return false;
    }
    forall k | 0 <= k <= |s| {
      dst[at + k] := if k < |s| then s[k] else '\0';
    }
    return true;
  }

  /** SS(prefix); SX(n) */
  method PutNumber(dst: array<char>, limit: nat, at: nat, prefix: seq<char>, n: uint32) returns (ok: bool, next: nat)
    requires at <= limit <= dst.Length
    modifies dst
    ensures next == at + |prefix + Print(n as int)| && (ok <==> next < limit)
    ensures ok ==> dst[..next] == old(dst[..at]) + (prefix + Print(n as int)) && dst[next] == '\0'
  {
    hide Print;
    var tmp := Print(n as int);
    next := at + |prefix| + |tmp|;
    ok := Put(dst, limit, at, prefix);
    if ok {
      ok := Put(dst, limit, at + |prefix|, tmp);
    }
  }

  /** SS("$"); SB(buf, len) */
  method PutBytes(dst: array<char>, limit: nat, at: nat, s: seq<byte>) returns (ok: bool, next: nat)
    requires at <= limit <= dst.Length
    modifies dst
    ensures next == at + |"$" + Base64Text(s)| && (ok <==> next < limit)
    ensures ok ==> dst[..next] == old(dst[..at]) + ("$" + Base64Text(s)) && dst[next] == '\0'
  {
    Base64Chars(s);
    hide Base64Text, EncodedLength, AreChars, Encode;
    next := at + 1 + EncodedLength(|s|);
    ok := Put(dst, limit, at, "$");
    if ok {
      ghost var before := dst[..at + 1];
      var n := ToBase64(dst, at + 1, limit - at - 1, s);
      ok := n != -1;
      if ok {
        assert dst[at + 1..next] == Base64Text(s) && dst[..at + 1] == before;
        assert dst[..next] == before + dst[at + 1..next];
      }
    }
  }

  /** What a context prints as. */
  function Fields(ctx: Context): Parsed
    requires ctx.salt.Data? && ctx.out.Data?
  {
    Parsed(ctx.version, ctx.mCost, ctx.tCost, ctx.lanes, ctx.salt.bytes, ctx.out.bytes)
  }

  /** SS("$"); SS(type_string) */
  method PutPrefix(dst: array<char>, limit: nat, kind: Kind) returns (ok: bool)
    requires limit <= dst.Length
    modifies dst
    ensures ok <==> |Prefix(kind)| < limit
    ensures ok ==> dst[..|Prefix(kind)|] == Prefix(kind)
  {
    ok := Put(dst, limit, 0, "$");
    if ok {
      ok := Put(dst, limit, 1, TypeName(kind));
    }
  }

  /** The three costs. */
  method PutCosts(dst: array<char>, limit: nat, at: nat, x: Parsed) returns (ok: bool, next: nat)
    requires at <= limit <= dst.Length
    modifies dst
    ensures next == at + |Costs(x)| && (ok <==> next < limit)
    ensures ok ==> dst[..next] == old(dst[..at]) + Costs(x)
  {
    ghost var before := dst[..at];
    ghost var m, t, l := "$m=" + Print(x.mCost as int), ",t=" + Print(x.tCost as int), ",p=" + Print(x.lanes as int);
    assert Costs(x) == m + (t + l);
    hide Print, Costs;
    next := at + |Costs(x)|;
    var q;
    ok, q := PutNumber(dst, limit, at, "$m=", x.mCost);
    if ok {
      ok, q := PutNumber(dst, limit, q, ",t=", x.tCost);
      if ok {
        ok, q := PutNumber(dst, limit, q, ",p=", x.lanes);
        Associative(before + m, t, l);
        Associative(before, m, t + l);
      }
    }
  }

  /** Salt and output. */
  method PutBinary(dst: array<char>, limit: nat, at: nat, x: Parsed) returns (ok: bool, next: nat)
    requires at <= limit <= dst.Length
    modifies dst
    ensures next == at + |Binary(x)| && (ok <==> next < limit)
    ensures ok ==> dst[..next] == old(dst[..at]) + Binary(x) && dst[next] == '\0'
  {
    ghost var before := dst[..at];
    ghost var s, o := "$" + Base64Text(x.salt), "$" + Base64Text(x.out);
    assert Binary(x) == s + o;
    hide Base64Text, EncodedLength, Binary;
    next := at + |Binary(x)|;
    var q;
    ok, q := PutBytes(dst, limit, at, x.salt);
    if ok {
      ok, q := PutBytes(dst, limit, q, x.out);
      Associative(before, s, o);
    }
  }

  /** encode_string: exactly when the inputs are valid and the text with its terminating zero fits. */
  method EncodeString(dst: array<char>, dstLen: nat, ctx: Context, kind: Kind, maxMemory: uint32) returns (code: Code)
    requires ctx.Sized() && dstLen <= dst.Length
    modifies dst
    ensures ValidateInputs(ctx, maxMemory) != Code.Ok ==> code == ValidateInputs(ctx, maxMemory)
    ensures ValidateInputs(ctx, maxMemory) == Code.Ok ==> ctx.salt.Data? && ctx.out.Data?
    ensures ValidateInputs(ctx, maxMemory) == Code.Ok ==>
              var text := Form(kind, Fields(ctx), true);
              code == (if |text| < dstLen then Code.Ok else EncodingFail)
              && (code == Code.Ok ==> dst[..|text|] == text && dst[|text|] == '\0')
    ensures ValidateInputs(ctx, maxMemory) == Code.Ok ==>
              Form(kind, Fields(ctx), true) ==
                (if kind == Argon2d then "$argon2d" else if kind == Argon2i then "$argon2i" else "$argon2id")
                + "$v=" + Print(ctx.version as int) + "$m=" + Print(ctx.mCost as int) + ",t=" + Print(ctx.tCost as int)
                + ",p=" + Print(ctx.lanes as int) + "$" + Base64Text(ctx.salt.bytes) + "$" + Base64Text(ctx.out.bytes)
  {
    var validation := ValidateInputs(ctx, maxMemory);
    ValidExactly(ctx, maxMemory);
    if validation != Code.Ok {
      return validation;
    }
    FormText(kind, Fields(ctx));
    hide ValidateInputs, Form;
    code := EncodeFields(dst, dstLen, Fields(ctx), kind);
  }

  /** The fields in order; the first that does not fit ends it. */
  method EncodeFields(dst: array<char>, limit: nat, x: Parsed, kind: Kind) returns (code: Code)
    requires limit <= dst.Length
    modifies dst
    ensures var text := Form(kind, x, true);
            code == (if |text| < limit then Code.Ok else EncodingFail)
            && (code == Code.Ok ==> dst[..|text|] == text && dst[|text|] == '\0')
  {
    ghost var p, v, c, b := Prefix(kind), "$v=" + Print(x.version as int), Costs(x), Binary(x);
    FormParts(kind, x);
    hide Print, Costs, Binary, Prefix, Form;
    var ok := PutPrefix(dst, limit, kind);
    if !ok { return EncodingFail; }
    var at := |Prefix(kind)|;
    ok, at := PutNumber(dst, limit, at, "$v=", x.version);
    if !ok { return EncodingFail; }
    ok, at := PutCosts(dst, limit, at, x);
    if !ok { return EncodingFail; }
    ok, at := PutBinary(dst, limit, at, x);
    Associative(p + v, c, b);
    Associative(p, v, c + b);
    return if ok then Code.Ok else EncodingFail;
  }

  lemma FormParts(kind: Kind, x: Parsed)
    ensures Form(kind, x, true) == Prefix(kind) + (("$v=" + Print(x.version as int)) + (Costs(x) + Binary(x)))
  {
  }

  // ---- the promises ----

  /** What encode_string prints for a valid context, decode_string accepts, and it recovers the version, the costs, the
      lanes, the salt and the output. */
  lemma DecodeEncoded(ctx: Context, kind: Kind, buffers: Context, maxMemory: uint32)
    requires ctx.Sized() && buffers.Sized() && ValidateInputs(ctx, maxMemory) == Code.Ok
    requires ctx.salt.Data? && ctx.out.Data?
    requires buffers.salt.Data? && buffers.out.Data? && (buffers.pwd.Data? || buffers.pwd.length == 0)
    requires |ctx.salt.bytes| <= |buffers.salt.bytes| && |ctx.out.bytes| <= |buffers.out.bytes|
    ensures Outcome(Form(kind, Fields(ctx), true), kind, buffers, maxMemory) == Code.Ok
    ensures Parse(Form(kind, Fields(ctx), true), kind, |buffers.salt.bytes|, |buffers.out.bytes|)
            == Some((|Form(kind, Fields(ctx), true)|, Fields(ctx)))
  {
    var x := Fields(ctx);
    ParseForm(kind, x, true, |buffers.salt.bytes|, |buffers.out.bytes|);
    ValidExactly(ctx, maxMemory);
    ValidExactly(Filled(buffers, x), maxMemory);
    hide Parse, ValidateInputs, Form;
  }

  /** An accepted text is the printed form of what it fills in, with or without the version, if and only if it has 7-bit
      characters only; otherwise the printed form has '/' for each other character. */
  lemma AcceptedIsPrinted(text: seq<char>, kind: Kind, ctx: Context, maxMemory: uint32) returns (versioned: bool)
    requires ctx.Sized() && ctx.salt.Data? && ctx.out.Data? && (forall k :: 0 <= k < |text| ==> text[k] != '\0')
    requires Outcome(text, kind, ctx, maxMemory) == Code.Ok
    ensures Parse(text, kind, |ctx.salt.bytes|, |ctx.out.bytes|).Some?
    ensures var form := Form(kind, Parse(text, kind, |ctx.salt.bytes|, |ctx.out.bytes|).value.1, versioned);
            Blurred(text) == form && (text == form <==> SevenBit(text))
  {
    hide Parse, ValidateInputs, Form;
    versioned := ParseRead(text, kind, |ctx.salt.bytes|, |ctx.out.bytes|);
    assert text[..|text|] == text;
  }

  /** What encode_string prints is still accepted, with the same meaning, when a '/' in it is replaced by a character
      that is not 7-bit: a text that is not the printed form of anything. */
  lemma OtherCharacterAccepted(ctx: Context, kind: Kind, maxMemory: uint32, k: nat, c: char)
    requires ctx.Sized() && ValidateInputs(ctx, maxMemory) == Code.Ok && ctx.salt.Data? && ctx.out.Data?
    requires k < |Form(kind, Fields(ctx), true)| && Form(kind, Fields(ctx), true)[k] == '/' && c as int >= 128
    ensures var text := Form(kind, Fields(ctx), true)[k := c];
            && Outcome(text, kind, ctx, maxMemory) == Code.Ok
            && Parse(text, kind, |ctx.salt.bytes|, |ctx.out.bytes|) == Some((|text|, Fields(ctx)))
            && (forall x: Parsed, versioned: bool :: text != Form(kind, x, versioned))
  {
    var form := Form(kind, Fields(ctx), true);
    var text := form[k := c];
    ValidExactly(ctx, maxMemory);
    assert Blurred(text) == Blurred(form);
    DecodeEncoded(ctx, kind, ctx, maxMemory);
    hide Parse, ValidateInputs, Form, Blurred;
    ParseBlur(text, kind, |ctx.salt.bytes|, |ctx.out.bytes|);
    ParseBlur(form, kind, |ctx.salt.bytes|, |ctx.out.bytes|);
    forall x: Parsed, versioned: bool
      ensures text != Form(kind, x, versioned)
    {
      FormPlain(kind, x, versioned);
      assert text[k] == c;
    }
  }

  /** A text printed for one type is not accepted for another. */
  lemma OtherKind(kind: Kind, other: Kind, x: Parsed, saltCap: nat, outCap: nat)
    requires kind != other
    ensures Parse(Form(kind, x, true), other, saltCap, outCap).None?
  {
    hide Print, Costs, Binary, ParseNumber, ParseBinary;
    var text := Form(kind, x, true);
    var rest := Print(x.version as int) + (Costs(x) + Binary(x));
    assert text == (Prefix(kind) + "$v=") + rest;
    MatchesItself(text);
    MatchesSplit(text, 0, Prefix(kind) + "$v=", rest);
    KindClash(text, kind, other);
  }

  lemma PrefixCodes()
    ensures |Prefix(Argon2d)| == 8 && Prefix(Argon2d)[7] == 'd'
    ensures |Prefix(Argon2i)| == 8 && Prefix(Argon2i)[7] == 'i'
    ensures |Prefix(Argon2id)| == 9 && Prefix(Argon2id)[7] == 'i' && Prefix(Argon2id)[8] == 'd'
  {
  }

  lemma MatchesAt(text: seq<char>, prefix: seq<char>, k: nat)
    requires Matches(text, 0, prefix) && k < |prefix|
    ensures k < |text| && text[k] == prefix[k]
  {
    assert text[0..|prefix|][k] == text[k];
  }

  lemma KindClash(text: seq<char>, kind: Kind, other: Kind)
    requires kind != other && Matches(text, 0, Prefix(kind) + "$v=")
    ensures Matches(text, 0, Prefix(other))
            ==> ParseVersion(text, |Prefix(other)|) == Some((|Prefix(other)|, VERSION_10))
                                                 && ParseCosts(text, |Prefix(other)|).None?
  {
    PrefixCodes();
    hide ParseNumber, Matches, Prefix;
    var head := Prefix(kind) + "$v=";
    MatchesAt(text, head, 7);
    MatchesAt(text, head, 8);
    if Matches(text, 0, Prefix(other)) {
      MatchesAt(text, Prefix(other), 7);
      if other == Argon2id {
        MatchesAt(text, Prefix(other), 8);
      } else {
        NoSeparator(text, 8);
      }
    }
  }

  lemma NoSeparator(text: seq<char>, p: nat)
    requires p >= |text| || text[p] != '$'
    ensures !Matches(text, p, "$v=") && ParseNumber(text, p, "$m=").None?
  {
    assert forall s :: |s| > 0 && Matches(text, p, s) ==> text[p..p + |s|][0] == text[p];
  }

  // ---- the length ----

  /** b64len */
  method B64len(len: uint32) returns (n: nat)
    ensures forall s: seq<byte> :: |s| == len as int ==> n == |Base64Text(s)|
  {
    hide Base64Text;
    n := len as int / 3 * 4;
    match len as int % 3
    case 2 => n := n + 3;
    case 1 => n := n + 2;
    case _ =>
  }

  /** argon2_encodedlen: the characters that encode_string needs with the terminating zero, whenever the version has two
      digits, as the number 0x13 that is built in has; 0x10 has two as well. */
  method Argon2Encodedlen(ctx: Context, kind: Kind) returns (n: nat)
    requires ctx.salt.Data? && ctx.out.Data? && ctx.Sized()
    ensures n == |Form(kind, Fields(ctx), true)| + 1 <==> 10 <= ctx.version <= 99
  {
    hide Base64Text, EncodedLength;
    var t := Numlen(ctx.tCost);
    var m := Numlen(ctx.mCost);
    var p := Numlen(ctx.lanes);
    var salt := B64len(ctx.salt.Length());
    var out := B64len(ctx.out.Length());
    var v := Numlen(0x13);
    n := 15 + |TypeName(kind)| + t + m + p + salt + out + v + 1;
    TwoDigits(ctx.version as int);
    TwoDigits(0x13);
  }

  lemma TwoDigits(n: nat)
    ensures |Print(n)| == 2 <==> 10 <= n <= 99
  {
    if n >= 10 {
      assert Print(n) == Print(n / 10) + [DigitChar(n % 10)];
    }
  }
}
