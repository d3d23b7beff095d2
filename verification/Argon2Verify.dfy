/** argon2_hash and argon2_verify (argon2.c): a hash string that is produced for a password is accepted for exactly the
    passwords with the same tag. */
module Argon2Verify {
  import opened Words
  import opened HashStreams
  import opened Base64
  import opened Decimal
  import opened Argon2Block
  import opened Argon2Index
  import opened Argon2Threads
  import opened Argon2Core
  import opened Argon2Hash
  import opened HashString
  import B = Blake2b

  const MIN_OUTLEN: nat := 4
  const MAX_LENGTH: nat := 0xFFFF_FFFF

  /** argon2_compare: 0 for equal strings, -1 otherwise. d is an unsigned char; d - 1 is shifted as an int. */
  method Compare(b1: seq<byte>, b2: seq<byte>) returns (r: int)
    requires |b1| == |b2|
    ensures r == if b1 == b2 then 0 else -1
  {
    var d: nat := 0;
    for i := 0 to |b1|
      invariant d < 0x100 && (d == 0 <==> b1[..i] == b2[..i])
    {
      Difference(d, b1[i] as nat, b2[i] as nat);
      assert b1[..i + 1] == b1[..i] + [b1[i]] && b2[..i + 1] == b2[..i] + [b2[i]];
      d := BitOr(d, BitXor(b1[i] as nat, b2[i] as nat));
    }
    assert b1[..|b1|] == b1 && b2[..|b2|] == b2;
    return (d - 1) / 0x100 % 2 - 1;
  }

  lemma Difference(d: nat, x: nat, y: nat)
    requires d < 0x100 && x < 0x100 && y < 0x100
    ensures BitOr(d, BitXor(x, y)) < 0x100
  {
    EightBits();
    hide Pow2, BitOr, BitXor;
    BitXorBelow(x, y, 8);
    BitOrBelow(d, BitXor(x, y), 8);
  }

  lemma EightBits()
    ensures Pow2(8) == 0x100
  {
  }

  /** The context that argon2_hash builds. */
  function Requested(tCost: uint32, mCost: uint32, parallelism: uint32, pwd: Field, salt: Field, out: seq<byte>,
                     version: uint32): Context
  {
    Context(Data(out), pwd, salt, Null(0), Null(0), tCost, mCost, parallelism, parallelism, version, false, false)
  }

  /** The length checks of argon2_hash, in their order. */
  function LengthCheck(pwd: Field, salt: Field, hashlen: nat): (code: Code)
    ensures code == PwdTooLong <==> pwd.Size() >= 0x1_0000_0000
    ensures code == SaltTooLong <==> pwd.Size() < 0x1_0000_0000 <= salt.Size()
    ensures code == Code.Ok || code == OutputTooLong || code == OutputTooShort <==>
              pwd.Size() < 0x1_0000_0000 && salt.Size() < 0x1_0000_0000
    ensures code == Code.Ok ==> 4 <= hashlen < 0x1_0000_0000
    ensures code == OutputTooLong ==> hashlen >= 0x1_0000_0000
    ensures code == OutputTooShort ==> hashlen < 4
  {
    if pwd.Size() > MAX_LENGTH then PwdTooLong
    else if salt.Size() > MAX_LENGTH then SaltTooLong
    else if hashlen > MAX_LENGTH then OutputTooLong
    else if hashlen < MIN_OUTLEN then OutputTooShort
    else Code.Ok
  }

  /** The text for a tag. */
  function Encoded(ctx: Context, kind: Kind, tag: seq<byte>): seq<char>
    requires ctx.salt.Data?
  {
    Form(kind, Parsed(ctx.version, ctx.mCost, ctx.tCost, ctx.lanes, ctx.salt.bytes, tag), true)
  }

  function PrintCode(encoded: array?<char>, encodedlen: nat, text: seq<char>): Code
  {
    if encoded != null && 0 < encodedlen <= |text| then EncodingFail else Code.Ok
  }

  /** The text and its terminating zero are in the buffer, if one is given. */
  ghost predicate Printed(encoded: array?<char>, encodedlen: nat, text: seq<char>)
    reads encoded
  {
    encoded != null && encodedlen > 0 ==>
      |text| < encoded.Length && encoded[..|text|] == text && encoded[|text|] == '\0'
  }

  /** The first part of argon2_hash: argon2_ctx on a buffer of its own, which is copied out if that is wanted. */
  method ComputeTag(I: B.Instance, ctx: Context, hash: array?<byte>, kind: Kind, maxMemory: uint32, available: bool,
                    held: nat -> Block, opt: bool, ssse3: bool)
    returns (code: Code, tag: seq<byte>)
    requires ctx.Sized() && (hash != null ==> ctx.out.Size() <= hash.Length)
    modifies hash
    ensures code == if ValidateInputs(ctx, maxMemory) != Code.Ok then ValidateInputs(ctx, maxMemory)
                    else if !available then MemoryAllocationError else Code.Ok
    ensures code == Code.Ok ==> ValidContext(ctx, maxMemory) && tag == Tag(I, ctx, kind) && |tag| == ctx.out.Size()
    ensures code == Code.Ok && hash != null ==> hash[..|tag|] == tag
  {
    hide ValidateInputs, Tag;
    tag := [];
    var out := new byte[ctx.out.Size()];
    code := Argon2Ctx(I, ctx, kind, maxMemory, available, held, opt, ssse3, out);
    if code == Code.Ok {
      tag := out[..];
      if hash != null {
        assert hash[..0] == [];
        CopyAt(hash, 0, tag);
      }
    }
  }

  /** The call of encode_string, on the context that now holds the tag. */
  method PrintTag(ctx: Context, tag: seq<byte>, encoded: array?<char>, encodedlen: nat, kind: Kind, maxMemory: uint32)
    returns (code: Code)
    requires ctx.Sized() && ValidContext(ctx, maxMemory) && |tag| == ctx.out.Size()
    requires encoded != null ==> encodedlen <= encoded.Length
    modifies encoded
    ensures code == PrintCode(encoded, encodedlen, Encoded(ctx, kind, tag))
    ensures code == Code.Ok ==> Printed(encoded, encodedlen, Encoded(ctx, kind, tag))
  {
    var filled := ctx.(out := Data(tag));
    ValidExactly(filled, maxMemory);
    hide ValidateInputs, Form;
    code := Code.Ok;
    if encoded != null && encodedlen > 0 {
      code := EncodeString(encoded, encodedlen, filled, kind, maxMemory);
    }
  }

  /** argon2_hash after its length checks. The code is that of argon2_ctx, or tells whether the text fits; the tag is
      copied out and printed if that is wanted. */
  method HashContext(I: B.Instance, ctx: Context, hash: array?<byte>, encoded: array?<char>, encodedlen: nat,
                     kind: Kind, maxMemory: uint32, available: bool, held: nat -> Block, opt: bool, ssse3: bool)
    returns (code: Code)
    requires ctx.Sized() && (hash != null ==> ctx.out.Size() <= hash.Length)
    requires encoded != null ==> encodedlen <= encoded.Length
    modifies hash, encoded
    ensures ValidateInputs(ctx, maxMemory) == Code.Ok ==> ValidContext(ctx, maxMemory)
    ensures code == if ValidateInputs(ctx, maxMemory) != Code.Ok then ValidateInputs(ctx, maxMemory)
                    else if !available then MemoryAllocationError
                    else PrintCode(encoded, encodedlen, Encoded(ctx, kind, Tag(I, ctx, kind)))
    ensures code == Code.Ok && hash != null ==> hash[..ctx.out.Size()] == Tag(I, ctx, kind)
    ensures code == Code.Ok ==> Printed(encoded, encodedlen, Encoded(ctx, kind, Tag(I, ctx, kind)))
  {
    hide *;
    ValidExactly(ctx, maxMemory);
    var tag;
    code, tag := ComputeTag(I, ctx, hash, kind, maxMemory, available, held, opt, ssse3);
    if code == Code.Ok {
      code := PrintTag(ctx, tag, encoded, encodedlen, kind, maxMemory);
    }
  }

  /** argon2_verify_ctx on a context whose buffers are allocated: the code of argon2_ctx, or whether the tag is the one
      given. */
  method VerifyCtx(I: B.Instance, ctx: Context, hash: seq<byte>, kind: Kind, maxMemory: uint32, available: bool,
                   held: nat -> Block, opt: bool, ssse3: bool)
    returns (code: Code)
    requires ctx.Sized() && |hash| == ctx.out.Size()
    ensures code == if ValidateInputs(ctx, maxMemory) != Code.Ok then ValidateInputs(ctx, maxMemory)
                    else if !available then MemoryAllocationError
                    else if Matching(I, ctx, kind, hash) then Code.Ok else VerifyMismatch
  {
    ValidExactly(ctx, maxMemory);
    hide ValidateInputs, Tag;
    var out := new byte[ctx.out.Size()];
    code := Argon2Ctx(I, ctx, kind, maxMemory, available, held, opt, ssse3, out);
    if code != Code.Ok {
      return;
    }
    var r := Compare(hash, out[..]);
    if r != 0 {
      return VerifyMismatch;
    }
  }

  /** The tag of the context is the given one. */
  ghost predicate Matching(I: B.Instance, ctx: Context, kind: Kind, hash: seq<byte>)
    requires ctx.Sized()
  {
    && 1 <= ctx.lanes <= MAX_LANES && 1 <= ctx.threads && 1 <= ctx.tCost && ctx.out.Size() >= 1
    && Tag(I, ctx, kind) == hash
  }

  /** The context that decode_string fills: no field is longer than the text. */
  function Buffers(pwd: Field, n: nat): Context
  {
    Context(Data(Zeros(n)), pwd, Data(Zeros(n)), Null(0), Null(0), 0, 0, 0, 0, 0, false, false)
  }

  /** argon2_verify, with sufficient memory. */
  ghost function Verdict(I: B.Instance, text: seq<char>, pwd: Field, kind: Kind, maxMemory: uint32): Code
  {
    if pwd.Size() > MAX_LENGTH then PwdTooLong
    else if |text| > MAX_LENGTH then DecodingFail
    else
      var buffers := Buffers(pwd, |text|);
      if Outcome(text, kind, buffers, maxMemory) != Code.Ok then Outcome(text, kind, buffers, maxMemory)
      else
        var x := Parse(text, kind, |text|, |text|).value.1;
        if Matching(I, Filled(buffers, x), kind, x.out) then Code.Ok else VerifyMismatch
  }

  /** What acceptance by decode_string says. */
  lemma AboutOutcome(text: seq<char>, kind: Kind, ctx: Context, maxMemory: uint32)
    requires ctx.Sized() && Outcome(text, kind, ctx, maxMemory) == Code.Ok
    ensures var r := Parse(text, kind, ctx.salt.Size(), ctx.out.Size());
            && r.Some? && Filled(ctx, r.value.1).Sized()
            && ValidateInputs(Filled(ctx, r.value.1), maxMemory) == Code.Ok
  {
    hide Parse, ValidateInputs;
  }

  /** argon2_verify */
  method Verify(I: B.Instance, text: seq<char>, pwd: Field, kind: Kind, maxMemory: uint32, max: nat, available: bool,
                held: nat -> Block, opt: bool, ssse3: bool)
    returns (code: Code)
    requires EightBit(text) && max >= 0xFFFF_FFFF
    ensures available ==> code == Verdict(I, text, pwd, kind, maxMemory)
    ensures code == Code.Ok ==> Verdict(I, text, pwd, kind, maxMemory) == Code.Ok
  {
    if pwd.Size() > MAX_LENGTH {
      return PwdTooLong;
    }
    if |text| > MAX_LENGTH {
      return DecodingFail;
    }
    hide ValidateInputs, Parse, Matching, Outcome;
    var ctx := Buffers(pwd, |text|);
    var filled;
    code, filled := DecodeString(text, kind, ctx, maxMemory, max);
    if code != Code.Ok {
      return;
    }
    AboutOutcome(text, kind, ctx, maxMemory);
    code := VerifyCtx(I, filled, filled.out.bytes, kind, maxMemory, available, held, opt, ssse3);
  }

  /** argon2_hash: the code of its length checks, or the outcome for the context that it builds. */
  method Hash(I: B.Instance, tCost: uint32, mCost: uint32, parallelism: uint32, pwd: Field, salt: Field,
              hash: array?<byte>, hashlen: nat, encoded: array?<char>, encodedlen: nat, kind: Kind, version: uint32,
              maxMemory: uint32, available: bool, held: nat -> Block, opt: bool, ssse3: bool)
    returns (code: Code)
    requires hash != null ==> hashlen <= hash.Length
    requires encoded != null ==> encodedlen <= encoded.Length
    modifies hash, encoded
    ensures LengthCheck(pwd, salt, hashlen) != Code.Ok ==> code == LengthCheck(pwd, salt, hashlen)
    ensures code == Code.Ok ==> LengthCheck(pwd, salt, hashlen) == Code.Ok
    ensures LengthCheck(pwd, salt, hashlen) == Code.Ok ==>
              var ctx := Requested(tCost, mCost, parallelism, pwd, salt, Zeros(hashlen), version);
              && ctx.Sized() && (ValidateInputs(ctx, maxMemory) == Code.Ok ==> ValidContext(ctx, maxMemory))
              && ctx.tCost == tCost && ctx.mCost == mCost && ctx.lanes == ctx.threads == parallelism
              && ctx.pwd == pwd && ctx.salt == salt && ctx.secret == ctx.ad == Null(0) && ctx.version == version
              && ctx.out.Size() == hashlen
              && code == (if ValidateInputs(ctx, maxMemory) != Code.Ok then ValidateInputs(ctx, maxMemory)
                          else if !available then MemoryAllocationError
                          else PrintCode(encoded, encodedlen, Encoded(ctx, kind, Tag(I, ctx, kind))))
              && (code == Code.Ok && hash != null ==> hash[..hashlen] == Tag(I, ctx, kind))
              && (code == Code.Ok ==> Printed(encoded, encodedlen, Encoded(ctx, kind, Tag(I, ctx, kind))))
  {
    hide ValidateInputs, ValidContext, Tag, Encoded, Printed, PrintCode;
    code := LengthCheck(pwd, salt, hashlen);
    if code == Code.Ok {
      var ctx := Requested(tCost, mCost, parallelism, pwd, salt, Zeros(hashlen), version);
      code := HashContext(I, ctx, hash, encoded, encodedlen, kind, maxMemory, available, held, opt, ssse3);
    }
  }

  // ---- the promises ----

  /** The contents of the output buffer do not enter the tag. */
  lemma TagIgnoresOut(I: B.Instance, ctx: Context, kind: Kind, out: seq<byte>)
    requires ctx.Sized() && 1 <= ctx.lanes <= MAX_LANES && 1 <= ctx.threads && 1 <= ctx.tCost
    requires |out| == ctx.out.Size() >= 1
    ensures Tag(I, ctx.(out := Data(out)), kind) == Tag(I, ctx, kind)
  {
    hide Store32, SliceStart, Opened, TagOf;
  }

  /** The fields fit into buffers as long as the text. */
  lemma FieldsFit(kind: Kind, x: Parsed)
    ensures |x.salt| <= |Form(kind, x, true)| && |x.out| <= |Form(kind, x, true)|
  {
    LengthBound(|x.salt|);
    LengthBound(|x.out|);
    hide EncodedLength, Base64Text, Print;
  }

  /** What is to be decided once the text is decoded. */
  lemma VerdictFrom(I: B.Instance, text: seq<char>, pwd: Field, kind: Kind, maxMemory: uint32, n: nat, x: Parsed)
    requires pwd.Sized() && |text| <= MAX_LENGTH && Outcome(text, kind, Buffers(pwd, |text|), maxMemory) == Code.Ok
    requires Parse(text, kind, |text|, |text|) == Some((n, x))
    ensures Filled(Buffers(pwd, |text|), x).Sized()
    ensures Verdict(I, text, pwd, kind, maxMemory)
            == if Matching(I, Filled(Buffers(pwd, |text|), x), kind, x.out) then Code.Ok else VerifyMismatch
  {
    hide Parse, Outcome, Matching;
  }

  lemma FilledAgain(I: B.Instance, ctx: Context, kind: Kind, pwd: Field, n: nat, tag: seq<byte>)
    requires ctx.Sized() && pwd.Sized() && ctx.salt.Data? && ctx.out.Data? && |tag| == |ctx.out.bytes| >= 1
    requires ctx == Requested(ctx.tCost, ctx.mCost, ctx.lanes, ctx.pwd, ctx.salt, ctx.out.bytes, ctx.version)
    requires 1 <= ctx.lanes <= MAX_LANES && 1 <= ctx.tCost
    ensures var x := Fields(ctx.(out := Data(tag)));
            Filled(Buffers(pwd, n), x).Sized()
            && (Matching(I, Filled(Buffers(pwd, n), x), kind, tag) <==> Tag(I, ctx.(pwd := pwd), kind) == tag)
  {
    hide Tag;
    assert Filled(Buffers(pwd, n), Fields(ctx.(out := Data(tag)))) == ctx.(pwd := pwd, out := Data(tag));
    TagIgnoresOut(I, ctx.(pwd := pwd), kind, tag);
  }

  /** The text is accepted by decode_string, which gives the fields back. */
  lemma TextAccepted(ctx: Context, kind: Kind, pwd: Field, tag: seq<byte>, maxMemory: uint32)
    requires ctx.Sized() && ValidContext(ctx, maxMemory) && |tag| == ctx.out.Size()
    requires pwd.Sized() && (pwd.Data? || pwd.length == 0) && |Encoded(ctx, kind, tag)| <= MAX_LENGTH
    ensures var text := Encoded(ctx, kind, tag);
            && Outcome(text, kind, Buffers(pwd, |text|), maxMemory) == Code.Ok
            && Parse(text, kind, |text|, |text|) == Some((|text|, Fields(ctx.(out := Data(tag)))))
  {
    var stored := ctx.(out := Data(tag));
    ValidExactly(stored, maxMemory);
    FieldsFit(kind, Fields(stored));
    hide ValidateInputs, Form, Parse, Outcome;
    DecodeEncoded(stored, kind, Buffers(pwd, |Encoded(ctx, kind, tag)|), maxMemory);
  }

  /** The text that argon2_hash prints for a password is accepted by argon2_verify for exactly those passwords that have
      the same tag: for the password itself in any case. */
  lemma VerdictOfEncoded(I: B.Instance, ctx: Context, kind: Kind, pwd: Field, maxMemory: uint32)
    requires ctx.Sized() && ValidContext(ctx, maxMemory)
    requires ctx == Requested(ctx.tCost, ctx.mCost, ctx.lanes, ctx.pwd, ctx.salt, ctx.out.bytes, ctx.version)
    requires pwd.Sized() && (pwd.Data? || pwd.length == 0)
    requires |Encoded(ctx, kind, Tag(I, ctx, kind))| <= MAX_LENGTH
    ensures Verdict(I, Encoded(ctx, kind, Tag(I, ctx, kind)), pwd, kind, maxMemory)
            == if Tag(I, ctx.(pwd := pwd), kind) == Tag(I, ctx, kind) then Code.Ok else VerifyMismatch
  {
    hide Tag, Encoded, Parse, Outcome, Matching, Filled, Buffers, Verdict;
    var tag := Tag(I, ctx, kind);
    var text := Encoded(ctx, kind, tag);
    TextAccepted(ctx, kind, pwd, tag, maxMemory);
    VerdictFrom(I, text, pwd, kind, maxMemory, |text|, Fields(ctx.(out := Data(tag))));
    FilledAgain(I, ctx, kind, pwd, |text|, tag);
  }

  /** Hashing one password and verifying another, or the same, with the text that results. */
  method HashThenVerify(I: B.Instance, tCost: uint32, mCost: uint32, parallelism: uint32, pwd: Field, salt: Field,
                        hashlen: nat, encodedlen: nat, kind: Kind, version: uint32, maxMemory: uint32, max: nat,
                        other: Field, held: nat -> Block, opt: bool, ssse3: bool)
    returns (code: Code, verdict: Code)
    requires other.Sized() && (other.Data? || other.length == 0)
    requires 0 < encodedlen <= 0x1_0000_0000 && max >= 0xFFFF_FFFF
    ensures code == Code.Ok ==>
              var ctx := Requested(tCost, mCost, parallelism, pwd, salt, Zeros(hashlen), version);
              && ctx.Sized() && ValidContext(ctx, maxMemory)
              && verdict == if Tag(I, ctx.(pwd := other), kind) == Tag(I, ctx, kind) then Code.Ok else VerifyMismatch
    ensures code == Code.Ok && other == pwd ==> verdict == Code.Ok
  {
    hide ValidateInputs, Tag, Encoded, Verdict;
    var encoded := new char[encodedlen](_ => '\0');
    code := Hash(I, tCost, mCost, parallelism, pwd, salt, null, hashlen, encoded, encodedlen, kind, version, maxMemory,
                 true, held, opt, ssse3);
    verdict := code;
    if code == Code.Ok {
      ghost var ctx := Requested(tCost, mCost, parallelism, pwd, salt, Zeros(hashlen), version);
      ghost var printed := Encoded(ctx, kind, Tag(I, ctx, kind));
      EncodedPlain(ctx, kind, Tag(I, ctx, kind));
      assert forall k :: 0 <= k < |printed| ==> printed[k] == encoded[..|printed|][k];
      var text := CString(encoded, printed);
      VerdictOfEncoded(I, ctx, kind, other, maxMemory);
      verdict := Verify(I, text, other, kind, maxMemory, max, true, held, opt, ssse3);
    }
  }

  lemma EncodedPlain(ctx: Context, kind: Kind, tag: seq<byte>)
    requires ctx.salt.Data?
    ensures var text := Encoded(ctx, kind, tag); forall k :: 0 <= k < |text| ==> 0 < text[k] as int < 0x100
  {
    FormPlain(kind, Parsed(ctx.version, ctx.mCost, ctx.tCost, ctx.lanes, ctx.salt.bytes, tag), true);
    hide Form;
  }

  /** The text up to the terminating zero. */
  method CString(buf: array<char>, ghost text: seq<char>) returns (s: seq<char>)
    requires |text| < buf.Length && buf[|text|] == '\0'
    requires forall k :: 0 <= k < |text| ==> buf[k] == text[k] && text[k] != '\0'
    ensures s == text
  {
    var n := 0;
    while buf[n] != '\0'
      invariant n <= |text|
      decreases |text| - n
    {
      n := n + 1;
    }
    s := buf[..n];
  }
}
