/** Texture error codes, their coarse failure-source conditions, and the
    classification of DirectXTex HRESULT values into error codes. */
module TexError {
  import opened Wrappers
  import opened Bits

  /** The `int64_t` the HRESULT arrives in. */
  newtype int64 = x: int | -0x8000_0000_0000_0000 <= x < 0x8000_0000_0000_0000

  /** The `std::error_category` an error code belongs to; any category other
      than the two this library names is carried by name only. */
  datatype Category = TextureCategory | SystemCategory | OtherCategory(name: string)

  /** `std::error_code`: a category and an integer value. */
  datatype ErrorCode = ErrorCode(category: Category, value: int)

  /** The concrete texture errors. */
  datatype TextureErr = Success | Unknown | BadInput | MemoryAllocation | WriteFailure | ReadFailure

  /** The coarse recoverability conditions. */
  datatype FailureSource = BadUserInput | SystemError

  /** Underlying value of each texture error: declaration order, `Success` first. */
  function TextureErrValue(e: TextureErr): int
  {
    match e
    case Success => 0
    case Unknown => 1
    case BadInput => 2
    case MemoryAllocation => 3
    case WriteFailure => 4
    case ReadFailure => 5
  }

  /** Underlying value of each condition: numbering starts at 1, so that 0
      keeps its `std::error_condition` meaning of "no condition". */
  function FailureSourceValue(f: FailureSource): int
  {
    match f
    case BadUserInput => 1
    case SystemError => 2
  }

  /** `static_cast<TextureErr>(ev)` followed by a switch: `None` for a value
      no enumerator has. */
  function TextureErrOf(ev: int): (r: Option<TextureErr>)
    ensures r.Some? ==> TextureErrValue(r.value) == ev
    ensures r.None? ==> ev < 0 || ev > 5
  {
    if ev == 0 then Some(Success)
    else if ev == 1 then Some(Unknown)
    else if ev == 2 then Some(BadInput)
    else if ev == 3 then Some(MemoryAllocation)
    else if ev == 4 then Some(WriteFailure)
    else if ev == 5 then Some(ReadFailure)
    else None
  }

  /** `static_cast<FailureSource>(cond)` followed by a switch. */
  function FailureSourceOf(cond: int): (r: Option<FailureSource>)
    ensures r.Some? ==> FailureSourceValue(r.value) == cond
    ensures r.None? ==> cond != 1 && cond != 2
  {
    if cond == 1 then Some(BadUserInput)
    else if cond == 2 then Some(SystemError)
    else None
  }

  /** `make_error_code`: a texture error in the texture category. */
  function MakeErrorCode(e: TextureErr): (r: ErrorCode)
    ensures r.category == TextureCategory && TextureErrOf(r.value) == Some(e)
  {
    ErrorCode(TextureCategory, TextureErrValue(e))
  }

  /** Every texture error's value decodes back to that error. */
  lemma TextureErrRoundTrip(e: TextureErr)
    ensures TextureErrOf(TextureErrValue(e)) == Some(e)
  {
  }

  /** Every condition's value decodes back to that condition. */
  lemma FailureSourceRoundTrip(f: FailureSource)
    ensures FailureSourceOf(FailureSourceValue(f)) == Some(f)
  {
  }

  const UnrecognizedError: string := "(unrecognized error)"
  const UnrecognizedCondition: string := "(unrecognized condition)"

  /** `TextureErrCategory::message`: total over every integer. */
  function TextureMessage(ev: int): (r: string)
    ensures r == UnrecognizedError <==> TextureErrOf(ev).None?
    ensures r != ""
  {
    match TextureErrOf(ev)
    case Some(Success) => "no error"
    case Some(Unknown) => "default error"
    case Some(BadInput) => "invalid input"
    case Some(MemoryAllocation) => "memory allocation failure"
    case Some(WriteFailure) => "write failure"
    case Some(ReadFailure) => "read failure"
    case None => UnrecognizedError
  }

  /** `FailureSourceCategory::message`: total over every integer. */
  function ConditionMessage(cond: int): (r: string)
    ensures r == UnrecognizedCondition <==> FailureSourceOf(cond).None?
    ensures r != ""
  {
    match FailureSourceOf(cond)
    case Some(BadUserInput) => "invalid user request"
    case Some(SystemError) => "internal error"
    case None => UnrecognizedCondition
  }

  /** Distinct recognised values never share a message, so a message names
      its error. */
  lemma TextureMessageIdentifies(ev1: int, ev2: int)
    requires TextureErrOf(ev1).Some?
    ensures TextureMessage(ev1) == TextureMessage(ev2) <==> ev1 == ev2
  {
  }

  lemma ConditionMessageIdentifies(c1: int, c2: int)
    requires FailureSourceOf(c1).Some?
    ensures ConditionMessage(c1) == ConditionMessage(c2) <==> c1 == c2
  {
  }

  /** `FailureSourceCategory::equivalent(ec, cond)`. */
  function Equivalent(ec: ErrorCode, cond: int): (r: bool)
    ensures r ==> ec.category == TextureCategory && FailureSourceOf(cond).Some?
  {
    match FailureSourceOf(cond)
    case Some(BadUserInput) => ec == MakeErrorCode(BadInput)
    case Some(SystemError) => ec == MakeErrorCode(Unknown) || ec == MakeErrorCode(MemoryAllocation)
    case None => false
  }

  /** Independent table: the condition each texture error falls under, if any. */
  function SourceOf(e: TextureErr): Option<FailureSource>
  {
    match e
    case BadInput => Some(BadUserInput)
    case Unknown => Some(SystemError)
    case MemoryAllocation => Some(SystemError)
    case Success => None
    case WriteFailure => None
    case ReadFailure => None
  }

  /** `equivalent` agrees with the table: a code matches a condition exactly
      when it is a texture error filed under that condition. */
  lemma EquivalentIsClassification(ec: ErrorCode, cond: int)
    ensures Equivalent(ec, cond) <==>
      ec.category == TextureCategory && TextureErrOf(ec.value).Some? &&
      SourceOf(TextureErrOf(ec.value).value).Some? &&
      SourceOf(TextureErrOf(ec.value).value) == FailureSourceOf(cond)
  {
  }

  lemma BadUserInputExactly(ec: ErrorCode)
    ensures Equivalent(ec, FailureSourceValue(BadUserInput)) <==> ec == ErrorCode(TextureCategory, 2)
  {
  }

  lemma SystemErrorExactly(ec: ErrorCode)
    ensures Equivalent(ec, FailureSourceValue(SystemError)) <==>
      ec == ErrorCode(TextureCategory, 1) || ec == ErrorCode(TextureCategory, 3)
  {
  }

  /** No code is both a user error and a system error, and Success, WriteFailure
      and ReadFailure are neither. */
  lemma ConditionsDisjoint(ec: ErrorCode)
    ensures !(Equivalent(ec, FailureSourceValue(BadUserInput)) && Equivalent(ec, FailureSourceValue(SystemError)))
    ensures forall cond :: !Equivalent(MakeErrorCode(Success), cond)
    ensures forall cond :: !Equivalent(MakeErrorCode(WriteFailure), cond)
    ensures forall cond :: !Equivalent(MakeErrorCode(ReadFailure), cond)
  {
  }

  lemma UnknownConditionMatchesNothing(ec: ErrorCode, cond: int)
    requires cond != FailureSourceValue(BadUserInput) && cond != FailureSourceValue(SystemError)
    ensures !Equivalent(ec, cond)
  {
  }

  // ----- HRESULT classification -----

  /** `MAKE_HRESULT(SEVERITY_ERROR, FACILITY_WIN32, 0)` */
  const Win32Valid: nat := 0x8007_0000
  /** Severity, reserved and facility bits of the low 32 bits. */
  const FacilityMask: nat := 0xFFFF_0000
  /** The code bits. */
  const CodeMask: nat := 0xFFFF

  /** `static_cast<uint64_t>(hr)`: two's complement reinterpretation. */
  function ToUnsigned(hr: int64): (u: nat)
    ensures u < 0x1_0000_0000_0000_0000
    ensures hr >= 0 ==> u == hr as int
    ensures hr < 0 ==> u == hr as int + 0x1_0000_0000_0000_0000
  {
    (hr as int) % 0x1_0000_0000_0000_0000
  }

  /** Bits 16..31 of the HRESULT. */
  function FacilityBits(hr: int64): nat
  {
    Field(ToUnsigned(hr), 16, 16)
  }

  /** Bits 0..15 of the HRESULT. */
  function CodeBits(hr: int64): nat
  {
    Field(ToUnsigned(hr), 0, 16)
  }

  lemma FacilityMaskAsField(u: nat)
    ensures BitAnd(u, FacilityMask) == Win32Valid <==> Field(u, 16, 16) == 0x8007
  {
    Pow2Constants();
    OnesIsPow2Minus1(16);
    ShiftLeftIsMul(Ones(16), 16);
    ShiftLeftIsMul(0x8007, 16);
    assert FacilityMask == ShiftLeft(Ones(16), 16);
    assert Win32Valid == ShiftLeft(0x8007, 16);
    AndShifted(u, Ones(16), 16);
    AndOnes(ShiftRight(u, 16), 16);
    ShiftLeftInjective(Field(u, 16, 16), 0x8007, 16);
  }

  lemma CodeMaskAsField(u: nat)
    ensures BitAnd(u, CodeMask) == Field(u, 0, 16)
  {
    Pow2Constants();
    OnesIsPow2Minus1(16);
    AndOnes(u, 16);
  }

  /** `error_from_hresult` on a platform without the Win32 table: a Win32
      facility HRESULT becomes a system code, `S_OK` becomes Success, and
      everything else the caller's default. */
  function ErrorFromHresult(hr: int64, defaultErr: ErrorCode): (r: ErrorCode)
    ensures FacilityBits(hr) == 0x8007 ==> r == ErrorCode(SystemCategory, CodeBits(hr))
    ensures FacilityBits(hr) == 0x8007 ==> 0 <= r.value <= 0xFFFF
    ensures hr == 0 ==> r == MakeErrorCode(Success)
    ensures hr != 0 && FacilityBits(hr) != 0x8007 ==> r == defaultErr
  {
    var u := ToUnsigned(hr);
    FacilityMaskAsField(u);
    CodeMaskAsField(u);
    Pow2Constants();
    if BitAnd(u, FacilityMask) == Win32Valid then
      ErrorCode(SystemCategory, BitAnd(u, CodeMask))
    else if hr == 0 then
      MakeErrorCode(Success)
    else
      defaultErr
  }

  /** The facility and code bits are the usual quotient and remainder. */
  lemma FieldsAsArithmetic(hr: int64)
    ensures FacilityBits(hr) == (ToUnsigned(hr) / 0x1_0000) % 0x1_0000
    ensures CodeBits(hr) == ToUnsigned(hr) % 0x1_0000
  {
    var u := ToUnsigned(hr);
    Pow2Constants();
    assert FacilityBits(hr) == (u / 0x1_0000) % 0x1_0000 by {
      FieldIsDivMod(u, 16, 16);
    }
    assert CodeBits(hr) == u % 0x1_0000 by {
      FieldIsDivMod(u, 0, 16);
      assert Pow2(0) == 1;
      assert u / 1 == u;
    }
  }

  /** Bits 32..63 never take part: two HRESULTs that agree on their low 32
      bits are in the Win32 facility together and then give the same code. */
  lemma HighBitsIgnored(h1: int64, h2: int64, defaultErr: ErrorCode)
    requires Low(ToUnsigned(h1), 32) == Low(ToUnsigned(h2), 32)
    ensures FacilityBits(h1) == FacilityBits(h2)
    ensures CodeBits(h1) == CodeBits(h2)
    ensures FacilityBits(h1) == 0x8007 ==>
      ErrorFromHresult(h1, defaultErr) == ErrorFromHresult(h2, defaultErr)
  {
    FieldOfLow(ToUnsigned(h1), 32, 16, 16);
    FieldOfLow(ToUnsigned(h2), 32, 16, 16);
    FieldOfLow(ToUnsigned(h1), 32, 0, 16);
    FieldOfLow(ToUnsigned(h2), 32, 0, 16);
  }

  /** The 32-bit unsigned form of an `int32_t` value. */
  function Unsigned32(h: int64): (r: int64)
    requires -0x8000_0000 <= h < 0x8000_0000
    ensures 0 <= r < 0x1_0000_0000
    ensures h >= 0 ==> r == h
    ensures h < 0 ==> r as int == h as int + 0x1_0000_0000
  {
    ((h as int) % 0x1_0000_0000) as int64
  }

  lemma SignExtensionKeepsLow32(h: int64)
    requires -0x8000_0000 <= h < 0x8000_0000
    ensures Low(ToUnsigned(h), 32) == Low(ToUnsigned(Unsigned32(h)), 32)
    ensures h == 0 <==> Unsigned32(h) == 0
  {
    var u1, u2 := ToUnsigned(h), ToUnsigned(Unsigned32(h));
    assert u1 % 0x1_0000_0000 == u2 by {
      if h < 0 {
        NegativeLow32(h);
      } else {
        DivModUnique(h as nat, 0x1_0000_0000, 0, h as nat);
      }
    }
    DivModUnique(u2, 0x1_0000_0000, 0, u2);
    Pow2Constants();
    LowIsMod(u1, 32);
    LowIsMod(u2, 32);
  }

  lemma NegativeLow32(h: int64)
    requires -0x8000_0000 <= h < 0
    ensures ToUnsigned(h) % 0x1_0000_0000 == ToUnsigned(Unsigned32(h))
  {
    var u2 := h as int + 0x1_0000_0000;
    assert ToUnsigned(Unsigned32(h)) == u2;
    assert ToUnsigned(h) == 0x1_0000_0000 * 0xFFFF_FFFF + u2;
    DivModUnique(ToUnsigned(h), 0x1_0000_0000, 0xFFFF_FFFF, u2);
  }

  /** An HRESULT held sign-extended in the `int64_t` classifies exactly like
      its 32-bit unsigned form. */
  lemma SignExtensionIrrelevant(h: int64, defaultErr: ErrorCode)
    requires -0x8000_0000 <= h < 0x8000_0000
    ensures ErrorFromHresult(h, defaultErr) == ErrorFromHresult(Unsigned32(h), defaultErr)
  {
    SignExtensionKeepsLow32(h);
    HighBitsIgnored(h, Unsigned32(h), defaultErr);
  }

  /** `E_ACCESSDENIED`, written either way, is Win32 error 5. */
  lemma AccessDeniedIsWin32Code(hr: int64, defaultErr: ErrorCode)
    requires hr == 0x8007_0005 || hr == -0x7FF8_FFFB
    ensures ErrorFromHresult(hr, defaultErr) == ErrorCode(SystemCategory, 5)
  {
    var u := ToUnsigned(hr);
    FieldsAsArithmetic(hr);
    if hr < 0 {
      DivModUnique(u, 0x1_0000, 0xFFFF_FFFF_8007, 5);
      DivModUnique(0xFFFF_FFFF_8007, 0x1_0000, 0xFFFF_FFFF, 0x8007);
    } else {
      DivModUnique(u, 0x1_0000, 0x8007, 5);
      DivModUnique(0x8007, 0x1_0000, 0, 0x8007);
    }
  }

  /** `E_FAIL` is outside the Win32 facility and falls back to the default. */
  lemma GenericFailureIsDefault(hr: int64, defaultErr: ErrorCode)
    requires hr == 0x8000_4005
    ensures ErrorFromHresult(hr, defaultErr) == defaultErr
  {
    FieldsAsArithmetic(hr);
    DivModUnique(hr as nat, 0x1_0000, 0x8000, 0x4005);
    DivModUnique(0x8000, 0x1_0000, 0, 0x8000);
  }

  /** A failure HRESULT whose code bits are zero becomes system code 0, the
      value `std::error_code` reads as "no error". */
  lemma Win32ZeroCodeIsValueZero(hr: int64, defaultErr: ErrorCode)
    requires hr == 0x8007_0000
    ensures ErrorFromHresult(hr, defaultErr) == ErrorCode(SystemCategory, 0)
  {
    FieldsAsArithmetic(hr);
    DivModUnique(hr as nat, 0x1_0000, 0x8007, 0);
    DivModUnique(0x8007, 0x1_0000, 0, 0x8007);
  }
}
