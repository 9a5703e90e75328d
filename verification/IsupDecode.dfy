/**
  Decoding ITU-T Q.763 messages (src/isup/decode.go, Decode and what it calls).

  Code points stay numbers here: the tables that name them are not part of this model.
  */
module IsupDecode {
  import opened Octets
  import opened Text

  // ---------------------------------------------------------------- address signals

  /** isupDigit: the character of one address signal. */
  function IsupDigit(n: nat): Byte
    requires n < 16
  {
    if n < 10 then 48 + n
    else if n < 13 then 55 + n  // A, B, C
    else if n == 13 then 42     // *
    else if n == 14 then 35     // #
    else 70                     // F
  }

  /** The text decodeDigits returns for the octets from here on. */
  function DecodeDigits(raw: Bytes, odd: bool): Bytes {
    if raw == [] then []
    else
      var lo, hi := raw[0] % 16, raw[0] / 16;
      [IsupDigit(lo)] +
      if (|raw| == 1 && odd) || hi == 15 then [] else [IsupDigit(hi)] + DecodeDigits(raw[1..], odd)
  }

  /** decodeDigits: low nibble first, stopping at the odd end or at a filler. */
  method DecodeDigitsLoop(raw: Bytes, odd: bool) returns (b: Bytes)
    ensures b == DecodeDigits(raw, odd)
  {
    b := [];
    assert raw[0..] == raw;
    for i := 0 to |raw|
      invariant b + DecodeDigits(raw[i..], odd) == DecodeDigits(raw, odd)
    {
      var c := raw[i];
      ghost var before := b;
      assert raw[i..][1..] == raw[i + 1..];
      b := b + [IsupDigit(c % 16)];
      if i == |raw| - 1 && odd {
        return;
      }
      var hi := c / 16;
      if hi == 15 {
        return;
      }
      b := b + [IsupDigit(hi)];
      Assoc(before, [IsupDigit(c % 16)] + [IsupDigit(hi)], DecodeDigits(raw[i + 1..], odd));
      Assoc(before, [IsupDigit(c % 16)], [IsupDigit(hi)]);
      Assoc([IsupDigit(c % 16)], [IsupDigit(hi)], DecodeDigits(raw[i + 1..], odd));
    }
    assert b + [] == b;
  }

  /** Q.763, section 3.9: two signals an octet, the first in bits 1 to 4; `filler` ends an odd count. */
  function PackDigits(signals: seq<nat>, filler: nat): Bytes
    requires filler < 16 && forall i :: 0 <= i < |signals| ==> signals[i] < 16
  {
    if |signals| == 0 then []
    else if |signals| == 1 then [signals[0] + 16 * filler]
    else [signals[0] + 16 * signals[1]] + PackDigits(signals[2..], filler)
  }

  /** "0123456789ABC*#F": the characters of the 16 address signals, in the order of their codes. */
  const SIGNALS: Bytes := [48, 49, 50, 51, 52, 53, 54, 55, 56, 57, 65, 66, 67, 42, 35, 70]

  lemma SignalIs(n: nat)
    requires n < 16
    ensures |SIGNALS| == 16 && IsupDigit(n) == SIGNALS[n]
  {
  }

  /** The text of a list of signals. */
  function DigitText(signals: seq<nat>): (t: Bytes)
    requires forall i :: 0 <= i < |signals| ==> signals[i] < 16
    ensures |t| == |signals|
  {
    assert |SIGNALS| == 16;
    seq(|signals|, i requires 0 <= i < |signals| => SIGNALS[signals[i]])
  }

  /** No signal in the upper half of an octet is the filler code 15. */
  predicate NoFiller(signals: seq<nat>) {
    forall i :: 0 <= i < |signals| && i % 2 == 1 ==> signals[i] != 15
  }

  /** One octet of two signals. */
  lemma TwoDigits(lo: nat, hi: nat, rest: Bytes, odd: bool, text: Bytes)
    requires lo < 16 && hi < 16 && (rest == [] ==> !odd)
    ensures DecodeDigits([lo + 16 * hi] + rest, odd) == [IsupDigit(lo), IsupDigit(hi)] + text <==>
            hi != 15 && DecodeDigits(rest, odd) == text
  {
    var raw := [lo + 16 * hi] + rest;
    var d := DecodeDigits(rest, odd);
    assert raw[0] % 16 == lo && raw[0] / 16 == hi && raw[1..] == rest;
    if hi != 15 {
      assert DecodeDigits(raw, odd) == [IsupDigit(lo), IsupDigit(hi)] + d;
      CancelLeft([IsupDigit(lo), IsupDigit(hi)], d, text);
    }
  }

  lemma PackStep(signals: seq<nat>, filler: nat)
    requires filler < 16 && |signals| >= 2 && forall i :: 0 <= i < |signals| ==> signals[i] < 16
    ensures PackDigits(signals, filler) == [signals[0] + 16 * signals[1]] + PackDigits(signals[2..], filler)
  {
  }

  lemma PackEmpty(signals: seq<nat>, filler: nat)
    requires filler < 16 && forall i :: 0 <= i < |signals| ==> signals[i] < 16
    ensures PackDigits(signals, filler) == [] <==> signals == []
  {
  }

  /** Packed digits are read back exactly when no upper signal is the filler code. */
  lemma {:induction false} DigitsRoundTrip(signals: seq<nat>, filler: nat)
    requires filler < 16 && forall i :: 0 <= i < |signals| ==> signals[i] < 16
    ensures DecodeDigits(PackDigits(signals, filler), |signals| % 2 == 1) == DigitText(signals) <==>
            NoFiller(signals)
  {
    if |signals| < 2 {
      FewDigits(signals, filler);
    } else {
      NoFillerTail(signals);
      DigitsRoundTrip(signals[2..], filler);
      DigitsStep(signals, filler, PackDigits(signals[2..], filler), DigitText(signals[2..]));
    }
  }

  lemma FewDigits(signals: seq<nat>, filler: nat)
    requires filler < 16 && |signals| < 2 && forall i :: 0 <= i < |signals| ==> signals[i] < 16
    ensures DecodeDigits(PackDigits(signals, filler), |signals| % 2 == 1) == DigitText(signals)
    ensures NoFiller(signals)
  {
    if |signals| == 1 {
      SignalIs(signals[0]);
      assert DigitText(signals) == [IsupDigit(signals[0])];
    } else {
      assert DigitText(signals) == [];
    }
  }

  lemma DigitTextStep(signals: seq<nat>)
    requires |signals| >= 2 && forall i :: 0 <= i < |signals| ==> signals[i] < 16
    ensures DigitText(signals) == [IsupDigit(signals[0]), IsupDigit(signals[1])] + DigitText(signals[2..])
    ensures (|signals[2..]| % 2 == 1) == (|signals| % 2 == 1)
  {
    hide IsupDigit, SIGNALS;
    SignalIs(signals[0]);
    SignalIs(signals[1]);
  }

  lemma DigitsStep(signals: seq<nat>, filler: nat, raw: Bytes, text: Bytes)
    requires filler < 16 && |signals| >= 2 && forall i :: 0 <= i < |signals| ==> signals[i] < 16
    requires raw == PackDigits(signals[2..], filler) && text == DigitText(signals[2..])
    ensures DecodeDigits(PackDigits(signals, filler), |signals| % 2 == 1) == DigitText(signals) <==>
            signals[1] != 15 && DecodeDigits(raw, |signals[2..]| % 2 == 1) == text
  {
    PackEmpty(signals[2..], filler);
    PackStep(signals, filler);
    DigitTextStep(signals);
    TwoDigits(signals[0], signals[1], raw, |signals| % 2 == 1, text);
  }

  lemma NoFillerTail(signals: seq<nat>)
    requires |signals| >= 2
    ensures NoFiller(signals) <==> signals[1] != 15 && NoFiller(signals[2..])
  {
    var rest := signals[2..];
    if NoFiller(signals) {
      forall i | 0 <= i < |rest| && i % 2 == 1 ensures rest[i] != 15 { assert rest[i] == signals[i + 2]; }
    }
    if signals[1] != 15 && NoFiller(rest) {
      forall i | 0 <= i < |signals| && i % 2 == 1 ensures signals[i] != 15 {
        if i > 1 { assert signals[i] == rest[i - 2]; }
      }
    }
  }

  // ---------------------------------------------------------------- decimal numbers

  /** The decimal digits of a number, as it is dialled. */
  function Dialled(k: nat): (signals: seq<nat>)
    ensures forall i :: 0 <= i < |signals| ==> signals[i] < 10
  {
    if k < 10 then [k] else Dialled(k / 10) + [k % 10]
  }

  /** `zeros` leading zeros and a number. */
  function Dial(zeros: nat, k: nat): (signals: seq<nat>)
    ensures forall i :: 0 <= i < |signals| ==> signals[i] < 10
  {
    seq(zeros, _ => 0) + Dialled(k)
  }

  lemma {:induction false} DialledText(k: nat)
    ensures DigitText(Dialled(k)) == Itoa(k)
  {
    if k < 10 {
    } else {
      DialledText(k / 10);
      TextAppend(Dialled(k / 10), [k % 10]);
    }
  }

  lemma TextAppend(a: seq<nat>, b: seq<nat>)
    requires forall i :: 0 <= i < |a| ==> a[i] < 16
    requires forall i :: 0 <= i < |b| ==> b[i] < 16
    ensures DigitText(a + b) == DigitText(a) + DigitText(b)
  {
    hide SIGNALS;
  }

  /** The digits of a number are read as the number is written, leading zeros and all. */
  lemma DialText(zeros: nat, k: nat)
    ensures DigitText(Dial(zeros, k)) == seq(zeros, _ => 48) + Itoa(k) && NoFiller(Dial(zeros, k))
  {
    DialledText(k);
    TextAppend(seq(zeros, _ => 0), Dialled(k));
  }

  // ---------------------------------------------------------------- parameters

  /** A party number; presentation and screening exist in calling-type numbers only. */
  datatype Party = Party(digits: Bytes, nature: nat, plan: nat, presentation: nat, screening: nat, incomplete: bool)

  datatype Cause = Cause(value: nat, location: nat)

  /** A parameter kept in the list: digits for numbers, raw octets for anything else. */
  datatype Parameter = Number(code: Byte, digits: Bytes) | Qualified(code: Byte, qualifier: Byte, digits: Bytes)
          | Raw(code: Byte, octets: Bytes)

  function DecodeCalled(b: Bytes): Option<Party> {
    if |b| < 2 then None
    else Some(Party(DecodeDigits(b[2..], b[0] >= 128), b[0] % 128, b[1] / 16 % 8, 0, 0, false))
  }

  function DecodeCalling(b: Bytes): Option<Party> {
    if |b| < 2 then None
    else
      Some(Party(DecodeDigits(b[2..], b[0] >= 128), b[0] % 128, b[1] / 16 % 8, b[1] / 4 % 4, b[1] % 4, b[1] >= 128))
  }

  function DecodeSubsequent(b: Bytes): Option<Bytes> {
    if |b| < 1 then None else Some(DecodeDigits(b[1..], b[0] >= 128))
  }

  function DecodeGeneric(b: Bytes): Option<(Byte, Party)> {
    if |b| < 3 then None else Some((b[0], DecodeCalling(b[1..]).value))
  }

  /** decodeCause: the extension bit of octet 1 says whether octet 1a stands before the value. */
  function DecodeCause(b: Bytes): Option<Cause> {
    if |b| < 2 || (b[0] < 128 && |b| < 3) then None
    else Some(Cause(b[if b[0] < 128 then 2 else 1] % 128, b[0] % 16))
  }

  /** Q.763, section 3.9 (called) and 3.10 (calling): odd indicator, codes, packed signals. */
  function EncodeParty(signals: seq<nat>, p: Party): Bytes
    requires forall i :: 0 <= i < |signals| ==> signals[i] < 16
    requires p.nature < 128 && p.plan < 8 && p.presentation < 4 && p.screening < 4
  {
    [(if |signals| % 2 == 1 then 128 else 0) + p.nature,
     (if p.incomplete then 128 else 0) + 16 * p.plan + 4 * p.presentation + p.screening] +
    PackDigits(signals, 0)
  }

  /** The two octets in front of the signals, taken apart again. */
  lemma PartyCodes(odd: bool, p: Party)
    requires p.nature < 128 && p.plan < 8 && p.presentation < 4 && p.screening < 4
    ensures var a: Byte := (if odd then 128 else 0) + p.nature;
            var b: Byte := (if p.incomplete then 128 else 0) + 16 * p.plan + 4 * p.presentation + p.screening;
            && (a >= 128 <==> odd) && a % 128 == p.nature
            && b / 16 % 8 == p.plan && b / 4 % 4 == p.presentation && b % 4 == p.screening
            && (b >= 128 <==> p.incomplete)
  {
    hide *;
    BitFields(if p.incomplete then 1 else 0, p.plan, p.presentation, p.screening);
  }

  lemma BitFields(top: nat, plan: nat, presentation: nat, screening: nat)
    requires top < 2 && plan < 8 && presentation < 4 && screening < 4
    ensures var b := 128 * top + 16 * plan + 4 * presentation + screening;
            b / 16 % 8 == plan && b / 4 % 4 == presentation && b % 4 == screening && (b >= 128 <==> top == 1)
  {
    var b := 128 * top + 16 * plan + 4 * presentation + screening;
    assert b / 16 == 8 * top + plan && b / 4 == 32 * top + 4 * plan + presentation;
  }

  /** Of octet 2 a called number keeps the numbering plan only: bit 8 and bits 1 to 4 are not looked at. */
  function AsCalled(p: Party): Party {
    p.(presentation := 0, screening := 0, incomplete := false)
  }

  lemma PartyRoundTrip(signals: seq<nat>, p: Party)
    requires forall i :: 0 <= i < |signals| ==> signals[i] < 16
    requires p.nature < 128 && p.plan < 8 && p.presentation < 4 && p.screening < 4
    requires NoFiller(signals) && p.digits == DigitText(signals)
    ensures DecodeCalling(EncodeParty(signals, p)) == Some(p)
    ensures DecodeCalled(EncodeParty(signals, p)) == Some(AsCalled(p))
  {
    var b := EncodeParty(signals, p);
    PartyCodes(|signals| % 2 == 1, p);
    DigitsRoundTrip(signals, 0);
    assert b[2..] == PackDigits(signals, 0);
  }

  /** Q.763, section 3.26: the qualifier in front of a calling-type number. */
  lemma GenericRoundTrip(qualifier: Byte, signals: seq<nat>, p: Party)
    requires forall i :: 0 <= i < |signals| ==> signals[i] < 16
    requires p.nature < 128 && p.plan < 8 && p.presentation < 4 && p.screening < 4
    requires NoFiller(signals) && p.digits == DigitText(signals)
    ensures DecodeGeneric([qualifier] + EncodeParty(signals, p)) == Some((qualifier, p))
  {
    hide DecodeCalling, EncodeParty;
    PartyRoundTrip(signals, p);
    PartyLength(signals, p);
    var b := [qualifier] + EncodeParty(signals, p);
    assert b[1..] == EncodeParty(signals, p);
  }

  lemma PartyLength(signals: seq<nat>, p: Party)
    requires forall i :: 0 <= i < |signals| ==> signals[i] < 16
    requires p.nature < 128 && p.plan < 8 && p.presentation < 4 && p.screening < 4
    ensures |EncodeParty(signals, p)| >= 2
  {
  }

  /** Q.763, section 3.51: the odd indicator and the signals of a subsequent number. */
  lemma SubsequentRoundTrip(signals: seq<nat>)
    requires forall i :: 0 <= i < |signals| ==> signals[i] < 16
    requires NoFiller(signals)
    ensures DecodeSubsequent([if |signals| % 2 == 1 then 128 else 0] + PackDigits(signals, 0)) ==
            Some(DigitText(signals))
  {
    var b := [if |signals| % 2 == 1 then 128 else 0] + PackDigits(signals, 0);
    DigitsRoundTrip(signals, 0);
    assert b[1..] == PackDigits(signals, 0);
  }

  /** Q.763, section 3.12 with Q.850: location and value, with or without octet 1a. */
  function EncodeCause(c: Cause, recommendation: Option<Byte>): Bytes
    requires c.value < 128 && c.location < 16
  {
    match recommendation
    case None => [128 + c.location, 128 + c.value]
    case Some(r) => [c.location, r, 128 + c.value]
  }

  lemma CauseRoundTrip(c: Cause, recommendation: Option<Byte>)
    requires c.value < 128 && c.location < 16
    ensures DecodeCause(EncodeCause(c, recommendation)) == Some(c)
  {
  }

  // ---------------------------------------------------------------- the message being filled

  /** The value of a Message object. */
  datatype Fields = Fields(
    called: Option<Party>, calling: Option<Party>, original: Option<Party>, redirecting: Option<Party>,
    subsequent: Bytes, cause: Option<Cause>, category: Option<Byte>, medium: Option<Byte>,
    event: Option<Byte>, parameters: seq<Parameter>)

  const EMPTY: Fields := Fields(None, None, None, None, [], None, None, None, None, [])

  /** addOptional: promoted parameters fill a field, mandatory ones are not overwritten. */
  function AddOptional(m: Fields, code: Byte, val: Bytes): Fields {
    match code
    case 4 => if m.called.None? then m.(called := DecodeCalled(val)) else m
    case 5 =>
      var d := DecodeSubsequent(val);
      if d.Some? && m.subsequent == [] then m.(subsequent := d.value) else m
    case 10 => if DecodeCalling(val).Some? then m.(calling := DecodeCalling(val)) else m
    case 11 => if DecodeCalling(val).Some? then m.(redirecting := DecodeCalling(val)) else m
    case 18 => if m.cause.None? then m.(cause := DecodeCause(val)) else m
    case 40 => if DecodeCalling(val).Some? then m.(original := DecodeCalling(val)) else m
    case _ =>
      m.(parameters := m.parameters + Listed(code, val))
  }

  /** The parameters that are only listed; a number too short to decode is dropped. */
  function Listed(code: Byte, val: Bytes): seq<Parameter> {
    if code == 12 then
      match DecodeCalled(val) { case None => [] case Some(n) => [Number(code, n.digits)] }
    else if code == 33 || code == 63 then
      match DecodeCalling(val) { case None => [] case Some(n) => [Number(code, n.digits)] }
    else if code == 192 then
      match DecodeGeneric(val) { case None => [] case Some((q, n)) => [Qualified(code, q, n.digits)] }
    else [Raw(code, val)]
  }

  datatype Optional = Optional(code: Byte, val: Bytes)

  /** All parameters of the optional part, added in order. */
  function AddAll(m: Fields, opts: seq<Optional>): Fields
    decreases |opts|
  {
    if opts == [] then m else AddAll(AddOptional(m, opts[0].code, opts[0].val), opts[1..])
  }

  datatype Outcome = Outcome(fields: Fields, truncated: bool)

  /** parseOptional as a function. */
  function ParseOptional(m: Fields, b: Bytes): Outcome
    decreases |b|
  {
    if b == [] || b[0] == 0 then Outcome(m, false)
    else if |b| < 2 || |b| < 2 + b[1] as int then Outcome(m, true)
    else
      var n := 2 + b[1] as int;
      ParseOptional(AddOptional(m, b[0], b[2..n]), b[n..])
  }

  /** Q.763, section 1.8: name, length, contents. */
  function EncodeOptionals(opts: seq<Optional>): Bytes
    requires forall i :: 0 <= i < |opts| ==> |opts[i].val| < 256
  {
    if opts == [] then []
    else [opts[0].code, |opts[0].val|] + opts[0].val + EncodeOptionals(opts[1..])
  }

  ghost predicate GoodOptionals(opts: seq<Optional>) {
    forall i :: 0 <= i < |opts| ==> opts[i].code != 0 && |opts[i].val| < 256
  }

  /** What ends the optional part: the message, or the end-of-optional-parameters octet. */
  predicate Ends(tail: Bytes) {
    tail == [] || tail[0] == 0
  }

  /** An encoded optional part is decoded parameter by parameter, in order, without error. */
  lemma {:induction false} OptionalsDecode(m: Fields, opts: seq<Optional>, tail: Bytes)
    requires GoodOptionals(opts) && Ends(tail)
    ensures ParseOptional(m, EncodeOptionals(opts) + tail) == Outcome(AddAll(m, opts), false)
    decreases |opts|
  {
    if opts == [] {
      assert EncodeOptionals(opts) + tail == tail;
    } else {
      var o := opts[0];
      var n := 2 + |o.val|;
      var rest := EncodeOptionals(opts[1..]) + tail;
      var b := EncodeOptionals(opts) + tail;
      Assoc([o.code, |o.val|] + o.val, EncodeOptionals(opts[1..]), tail);
      assert b == [o.code, |o.val|] + o.val + rest;
      assert b[2..n] == o.val;
      assert b[n..] == rest;
      OptionalsDecode(AddOptional(m, o.code, o.val), opts[1..], tail);
    }
  }

  /** The optional part is read without error only when it is such an encoding. */
  lemma {:induction false} OptionalsAre(m: Fields, b: Bytes) returns (opts: seq<Optional>, tail: Bytes)
    requires !ParseOptional(m, b).truncated
    ensures GoodOptionals(opts) && Ends(tail) && b == EncodeOptionals(opts) + tail
    ensures ParseOptional(m, b).fields == AddAll(m, opts)
    decreases |b|
  {
    if b == [] || b[0] == 0 {
      opts, tail := [], b;
      assert EncodeOptionals(opts) + tail == b;
    } else {
      var n := 2 + b[1] as int;
      var o := Optional(b[0], b[2..n]);
      var more;
      more, tail := OptionalsAre(AddOptional(m, b[0], b[2..n]), b[n..]);
      opts := [o] + more;
      assert opts[1..] == more;
      OptionalFront(b, o, EncodeOptionals(more), tail);
    }
  }

  lemma OptionalFront(b: Bytes, o: Optional, more: Bytes, tail: Bytes)
    requires |o.val| < 256 && |b| >= 2 + |o.val| && b[0] == o.code && b[1] == |o.val| && b[2..2 + |o.val|] == o.val
    requires b[2 + |o.val|..] == more + tail
    ensures b == [o.code, |o.val|] + o.val + more + tail
  {
    assert b == [o.code, |o.val|] + o.val + b[2 + |o.val|..];
    Assoc([o.code, |o.val|] + o.val, more, tail);
  }

  // ---------------------------------------------------------------- message layouts

  datatype VarKind = VarCalled | VarCause | VarSubsequent

  datatype Layout = Layout(fixed: nat, vars: seq<VarKind>, opt: bool)

  const IAM: Byte := 1
  const CPG: Byte := 44

  /** msgLayouts. */
  function LayoutOf(kind: Byte): Option<Layout> {
    match kind
    case 1 => Some(Layout(5, [VarCalled], true))
    case 2 => Some(Layout(0, [VarSubsequent], true))
    case 3 => Some(Layout(2, [], true))
    case 4 => Some(Layout(2, [], true))
    case 5 => Some(Layout(1, [], false))
    case 6 => Some(Layout(2, [], true))
    case 7 => Some(Layout(2, [], true))
    case 8 => Some(Layout(0, [], true))
    case 9 => Some(Layout(0, [], true))
    case 12 => Some(Layout(0, [VarCause], true))
    case 13 => Some(Layout(1, [], true))
    case 14 => Some(Layout(1, [], true))
    case 16 => Some(Layout(0, [], true))
    case 17 => Some(Layout(0, [], false))
    case 18 => Some(Layout(0, [], false))
    case 19 => Some(Layout(0, [], false))
    case 20 => Some(Layout(0, [], false))
    case 21 => Some(Layout(0, [], false))
    case 22 => Some(Layout(0, [], false))
    case 44 => Some(Layout(1, [], true))
    case 47 => Some(Layout(0, [VarCause], true))
    case _ => None
  }

  /** varValue: a length octet and the value behind it. */
  function VarValue(b: Bytes, start: nat): Option<Bytes> {
    if start >= |b| || start + 1 + b[start] as int > |b| then None
    else Some(b[start + 1..start + 1 + b[start] as int])
  }

  function AddVariable(m: Fields, kind: VarKind, val: Bytes): Fields {
    match kind
    case VarCalled => if DecodeCalled(val).Some? then m.(called := DecodeCalled(val)) else m
    case VarCause => if DecodeCause(val).Some? then m.(cause := DecodeCause(val)) else m
    case VarSubsequent => if DecodeSubsequent(val).Some? then m.(subsequent := DecodeSubsequent(val).value) else m
  }

  /** The mandatory variable part: one pointer octet for each kind, from `ptrPos` on. */
  function ReadVariables(m: Fields, b: Bytes, kinds: seq<VarKind>, ptrPos: nat): Outcome
    requires ptrPos + |kinds| <= |b|
    decreases |kinds|
  {
    if kinds == [] then Outcome(m, false)
    else
      match VarValue(b, ptrPos + b[ptrPos] as int)
      case None => Outcome(m, true)
      case Some(val) => ReadVariables(AddVariable(m, kinds[0], val), b, kinds[1..], ptrPos + 1)
  }

  lemma VariableStep(m: Fields, b: Bytes, kinds: seq<VarKind>, i: nat, base: nat)
    requires i < |kinds| && base + |kinds| <= |b|
    ensures ReadVariables(m, b, kinds[i..], base + i) ==
            match VarValue(b, base + i + b[base + i] as int)
            case None => Outcome(m, true)
            case Some(val) => ReadVariables(AddVariable(m, kinds[i], val), b, kinds[i + 1..], base + i + 1)
  {
    assert kinds[i..][1..] == kinds[i + 1..];
  }

  /** The optional part behind the last pointer; a zero pointer means there is none. */
  function ReadOptional(m: Fields, b: Bytes, ptrPos: nat): Outcome
    requires ptrPos < |b|
  {
    var start := ptrPos + b[ptrPos] as int;
    if b[ptrPos] == 0 then Outcome(m, false)
    else if start > |b| then Outcome(m, true)
    else ParseOptional(m, b[start..])
  }

  function Fixed(m: Fields, b: Bytes): Fields
    requires b != [] && (b[0] == IAM ==> |b| >= 6) && (b[0] == CPG ==> |b| >= 2)
  {
    if b[0] == IAM then m.(category := Some(b[4]), medium := Some(b[5]))
    else if b[0] == CPG then m.(event := Some(b[1] % 128))
    else m
  }

  /** The layout leaves room for the fixed octets that are read. */
  ghost predicate Fits(b: Bytes, layout: Layout) {
    b != [] && (b[0] == IAM ==> layout.fixed >= 5) && (b[0] == CPG ==> layout.fixed >= 1)
  }

  /** applyLayout as a function. */
  function ApplyLayout(m: Fields, b: Bytes, layout: Layout): Outcome
    requires Fits(b, layout)
  {
    var base := 1 + layout.fixed;
    if |b| < base + |layout.vars| + (if layout.opt then 1 else 0) then Outcome(m, true)
    else
      var read := ReadVariables(Fixed(m, b), b, layout.vars, base);
      if read.truncated || !layout.opt then read
      else ReadOptional(read.fields, b, base + |layout.vars|)
  }

  datatype Error = NoError | Empty | Unsupported | Truncated

  /** What Decode returns: the message type, its fields and its error. */
  datatype Decoded = Decoded(kind: Byte, fields: Fields, error: Error)

  /** Decode as a function. */
  function Decode(b: Bytes): Decoded {
    if b == [] then Decoded(0, EMPTY, Empty)
    else if LayoutOf(b[0]).None? then Decoded(b[0], EMPTY, Unsupported)
    else
      var r := ApplyLayout(EMPTY, b, LayoutOf(b[0]).value);
      Decoded(b[0], r.fields, if r.truncated then Truncated else NoError)
  }

  // ---------------------------------------------------------------- the object the source fills

  class Message {
    var kind: Byte
    var called: Option<Party>
    var calling: Option<Party>
    var original: Option<Party>
    var redirecting: Option<Party>
    var subsequent: Bytes
    var cause: Option<Cause>
    var category: Option<Byte>
    var medium: Option<Byte>
    var event: Option<Byte>
    var parameters: seq<Parameter>
    var error: Error

    ghost function View(): Fields
      reads this
    {
      Fields(called, calling, original, redirecting, subsequent, cause, category, medium, event, parameters)
    }

    /** Decode. */
    constructor (b: Bytes)
      ensures Decoded(kind, View(), error) == Decode(b)
    {
      kind := 0;
      called, calling, original, redirecting := None, None, None, None;
      subsequent, cause, category, medium, event := [], None, None, None, None;
      parameters, error := [], NoError;
      new;
      if |b| == 0 {
        error := Empty;
        return;
      }
      kind := b[0];
      if LayoutOf(b[0]).None? {
        error := Unsupported;
        return;
      }
      var truncated := Apply(b, LayoutOf(b[0]).value);
      if truncated {
        error := Truncated;
      }
    }

    /** applyLayout. */
    method Apply(b: Bytes, layout: Layout) returns (truncated: bool)
      requires Fits(b, layout)
      modifies this
      ensures Outcome(View(), truncated) == ApplyLayout(old(View()), b, layout)
      ensures kind == old(kind) && error == old(error)
    {
      hide ReadVariables, ReadOptional, Fixed;
      var need := 1 + layout.fixed + |layout.vars|;
      if layout.opt {
        need := need + 1;
      }
      if |b| < need {
        return true;
      }
      SetFixed(b);
      var base := 1 + layout.fixed;
      truncated := ApplyVariables(b, layout.vars, base);
      if truncated || !layout.opt {
        return;
      }
      truncated := ApplyOptional(b, base + |layout.vars|);
    }

    /** The end of applyLayout: the optional part behind its pointer. */
    method ApplyOptional(b: Bytes, ptrPos: nat) returns (truncated: bool)
      requires ptrPos < |b|
      modifies this
      ensures Outcome(View(), truncated) == ReadOptional(old(View()), b, ptrPos)
      ensures kind == old(kind) && error == old(error)
    {
      if b[ptrPos] == 0 {
        return false;
      }
      var start := ptrPos + b[ptrPos] as int;
      if start > |b| {
        return true;
      }
      truncated := ParseOptionals(b[start..]);
    }

    /** The fixed octets applyLayout reads. */
    method SetFixed(b: Bytes)
      requires b != [] && (b[0] == IAM ==> |b| >= 6) && (b[0] == CPG ==> |b| >= 2)
      modifies this
      ensures View() == Fixed(old(View()), b)
      ensures kind == old(kind) && error == old(error)
    {
      if b[0] == IAM {
        category, medium := Some(b[4]), Some(b[5]);
      } else if b[0] == CPG {
        event := Some(b[1] % 128);
      }
    }

    /** The loop of applyLayout over the pointers of the variable part. */
    method ApplyVariables(b: Bytes, kinds: seq<VarKind>, base: nat) returns (truncated: bool)
      requires base + |kinds| <= |b|
      modifies this
      ensures Outcome(View(), truncated) == ReadVariables(old(View()), b, kinds, base)
      ensures kind == old(kind) && error == old(error)
    {
      assert kinds[0..] == kinds;
      for i := 0 to |kinds|
        invariant ReadVariables(View(), b, kinds[i..], base + i) == ReadVariables(old(View()), b, kinds, base)
        invariant kind == old(kind) && error == old(error)
      {
        VariableStep(View(), b, kinds, i, base);
        var ptrPos := base + i;
        var val := VarValue(b, ptrPos + b[ptrPos] as int);
        if val.None? {
          return true;
        }
        SetVariable(kinds[i], val.value);
      }
      truncated := false;
    }

    method SetVariable(kindOf: VarKind, val: Bytes)
      modifies this
      ensures View() == AddVariable(old(View()), kindOf, val)
      ensures kind == old(kind) && error == old(error)
    {
      match kindOf {
        case VarCalled =>
          var n := DecodeCalled(val);
          if n.Some? { called := n; }
        case VarCause =>
          var c := DecodeCause(val);
          if c.Some? { cause := c; }
        case VarSubsequent =>
          var d := DecodeSubsequent(val);
          if d.Some? { subsequent := d.value; }
      }
    }

    /** parseOptional: re-slices the rest of the message until it ends or a zero octet stands. */
    method ParseOptionals(octets: Bytes) returns (truncated: bool)
      modifies this
      ensures Outcome(View(), truncated) == ParseOptional(old(View()), octets)
      ensures kind == old(kind) && error == old(error)
    {
      var b := octets;
      while |b| > 0
        invariant ParseOptional(View(), b) == ParseOptional(old(View()), octets)
        invariant kind == old(kind) && error == old(error)
      {
        var code := b[0];
        if code == 0 {
          return false;
        }
        if |b| < 2 {
          return true;
        }
        var ln := b[1] as int;
        if |b| < 2 + ln {
          return true;
        }
        var val := b[2..2 + ln];
        b := b[2 + ln..];
        Add(code, val);
      }
      truncated := false;
    }

    /** addOptional. */
    method Add(code: Byte, val: Bytes)
      modifies this
      ensures View() == AddOptional(old(View()), code, val)
      ensures kind == old(kind) && error == old(error)
    {
      if code == 4 {
        var n := DecodeCalled(val);
        if n.Some? && called.None? { called := n; }
      } else if code == 5 {
        var d := DecodeSubsequent(val);
        if d.Some? && subsequent == [] { subsequent := d.value; }
      } else if code == 10 {
        var n := DecodeCalling(val);
        if n.Some? { calling := n; }
      } else if code == 11 {
        var n := DecodeCalling(val);
        if n.Some? { redirecting := n; }
      } else if code == 18 {
        var c := DecodeCause(val);
        if c.Some? && cause.None? { cause := c; }
      } else if code == 40 {
        var n := DecodeCalling(val);
        if n.Some? { original := n; }
      } else {
        parameters := parameters + Listed(code, val);
      }
    }
  }

  // ---------------------------------------------------------------- whole messages

  /** The length fits one octet, and so does the pointer across the parameter to an optional part. */
  predicate Pointed(v: Bytes, opts: seq<Optional>) {
    |v| < 256 && (opts != [] ==> |v| <= 253)
  }

  /**
    Q.763, sections 1.5 to 1.8: the fixed part, a pointer octet for each variable parameter and one
    for the optional part, the variable parameters, the optional part closed by a zero octet.
    */
  function EncodeMessage(kind: Byte, fixed: Bytes, variable: seq<Bytes>, opts: seq<Optional>): Bytes
    requires LayoutOf(kind).Some? && |variable| == |LayoutOf(kind).value.vars|
    requires |variable| == 1 ==> Pointed(variable[0], opts)
    requires forall i :: 0 <= i < |opts| ==> |opts[i].val| < 256
  {
    var layout := LayoutOf(kind).value;
    var tail := if opts == [] then [] else EncodeOptionals(opts) + [0];
    if !layout.opt then [kind] + fixed
    else if |variable| == 0 then [kind] + fixed + [if opts == [] then 0 else 1] + tail
    else
      [kind] + fixed + [2, if opts == [] then 0 else |variable[0]| + 2] +
      ([|variable[0]|] + variable[0]) + tail
  }

  /** The fields an encoded message carries. */
  function Carried(kind: Byte, fixed: Bytes, variable: seq<Bytes>, opts: seq<Optional>): Fields
    requires LayoutOf(kind).Some? && |variable| == |LayoutOf(kind).value.vars| && |fixed| == LayoutOf(kind).value.fixed
  {
    var layout := LayoutOf(kind).value;
    var m0 := if kind == IAM then EMPTY.(category := Some(fixed[3]), medium := Some(fixed[4]))
              else if kind == CPG then EMPTY.(event := Some(fixed[0] % 128))
              else EMPTY;
    var m1 := if variable == [] then m0 else AddVariable(m0, layout.vars[0], variable[0]);
    if layout.opt then AddAll(m1, opts) else m1
  }

  lemma AtMostOneVariable(kind: Byte)
    requires LayoutOf(kind).Some?
    ensures var l := LayoutOf(kind).value; |l.vars| <= 1 && (l.vars != [] ==> l.opt)
    ensures kind == IAM ==> LayoutOf(kind).value.fixed == 5
    ensures kind == CPG ==> LayoutOf(kind).value.fixed == 1
  {
  }

  /** Decoding inverts the encoding of every message type the decoder knows. */
  lemma MessageRoundTrip(kind: Byte, fixed: Bytes, variable: seq<Bytes>, opts: seq<Optional>)
    requires LayoutOf(kind).Some?
    requires |fixed| == LayoutOf(kind).value.fixed && |variable| == |LayoutOf(kind).value.vars|
    requires |variable| == 1 ==> Pointed(variable[0], opts)
    requires GoodOptionals(opts)
    ensures Decode(EncodeMessage(kind, fixed, variable, opts)) ==
            Decoded(kind, Carried(kind, fixed, variable, opts), NoError)
  {
    var layout := LayoutOf(kind).value;
    AtMostOneVariable(kind);
    if !layout.opt {
    } else if variable == [] {
      NoVariableRoundTrip(kind, fixed, opts);
    } else {
      assert variable == [variable[0]];
      OneVariableRoundTrip(kind, fixed, variable[0], opts);
    }
  }

  lemma NoVariableRoundTrip(kind: Byte, fixed: Bytes, opts: seq<Optional>)
    requires LayoutOf(kind).Some? && LayoutOf(kind).value.opt && LayoutOf(kind).value.vars == []
    requires |fixed| == LayoutOf(kind).value.fixed && GoodOptionals(opts)
    ensures Decode(EncodeMessage(kind, fixed, [], opts)) == Decoded(kind, Carried(kind, fixed, [], opts), NoError)
  {
    hide ReadOptional, VarValue, AddVariable, AddAll, EncodeOptionals, LayoutOf;
    var tail := if opts == [] then [] else EncodeOptionals(opts) + [0];
    var b := EncodeMessage(kind, fixed, [], opts);
    var base := 1 + |fixed|;
    AtMostOneVariable(kind);
    NoVariableBytes(kind, fixed, if opts == [] then 0 else 1, tail);
    var m0 := Fixed(EMPTY, b);
    OptionalPart(m0, b, base, opts);
    assert ApplyLayout(EMPTY, b, LayoutOf(kind).value) == Outcome(AddAll(m0, opts), false);
  }

  lemma NoVariableBytes(kind: Byte, fixed: Bytes, pointer: Byte, tail: Bytes)
    ensures var b: Bytes := [kind] + fixed + [pointer] + tail;
            var base := 1 + |fixed|;
            && |b| >= base + 1 && b[0] == kind && b[base] == pointer
            && (forall i :: 0 <= i < |fixed| ==> b[1 + i] == fixed[i])
            && b[base + 1..] == tail
  {
  }

  lemma OneVariableRoundTrip(kind: Byte, fixed: Bytes, v: Bytes, opts: seq<Optional>)
    requires LayoutOf(kind).Some? && LayoutOf(kind).value.opt && |LayoutOf(kind).value.vars| == 1
    requires |fixed| == LayoutOf(kind).value.fixed && GoodOptionals(opts) && Pointed(v, opts)
    ensures Decode(EncodeMessage(kind, fixed, [v], opts)) == Decoded(kind, Carried(kind, fixed, [v], opts), NoError)
  {
    hide ReadVariables, ReadOptional, VarValue, AddVariable, AddAll, EncodeOptionals, LayoutOf;
    var layout := LayoutOf(kind).value;
    var tail := if opts == [] then [] else EncodeOptionals(opts) + [0];
    var b := EncodeMessage(kind, fixed, [v], opts);
    var base := 1 + |fixed|;
    AtMostOneVariable(kind);
    OneVariableBytes(kind, fixed, v, if opts == [] then 0 else |v| + 2, tail);
    var m0 := Fixed(EMPTY, b);
    var m1 := AddVariable(m0, layout.vars[0], v);
    OneVariable(m0, b, layout.vars, base, v);
    OptionalPart(m1, b, base + 1, opts);
    assert ApplyLayout(EMPTY, b, layout) == Outcome(AddAll(m1, opts), false);
  }

  /** Where the pieces of a message with one variable parameter stand. */
  lemma OneVariableBytes(kind: Byte, fixed: Bytes, v: Bytes, pointer: Byte, tail: Bytes)
    requires |v| < 256
    ensures var b: Bytes := [kind] + fixed + [2, pointer] + ([|v|] + v) + tail;
            var base := 1 + |fixed|;
            && |b| >= base + 3 && b[0] == kind && b[base] == 2 && b[base + 1] == pointer
            && (forall i :: 0 <= i < |fixed| ==> b[1 + i] == fixed[i])
            && VarValue(b, base + 2) == Some(v) && b[base + 3 + |v|..] == tail
  {
    var b: Bytes := [kind] + fixed + [2, pointer] + ([|v|] + v) + tail;
    var base := 1 + |fixed|;
    assert b[base + 3..base + 3 + |v|] == v;
  }

  lemma OneVariable(m: Fields, b: Bytes, kinds: seq<VarKind>, base: nat, v: Bytes)
    requires |kinds| == 1 && base + 1 <= |b| && b[base] == 2 && VarValue(b, base + 2) == Some(v)
    ensures ReadVariables(m, b, kinds, base) == Outcome(AddVariable(m, kinds[0], v), false)
  {
  }

  lemma OptionalPart(m: Fields, b: Bytes, ptrPos: nat, opts: seq<Optional>)
    requires ptrPos < |b| && GoodOptionals(opts)
    requires if opts == [] then b[ptrPos] == 0
             else b[ptrPos] != 0 && ptrPos + b[ptrPos] as int <= |b| &&
                  b[ptrPos + b[ptrPos] as int..] == EncodeOptionals(opts) + [0]
    ensures ReadOptional(m, b, ptrPos) == Outcome(AddAll(m, opts), false)
  {
    if opts != [] { OptionalsDecode(m, opts, [0]); }
  }

  // ---------------------------------------------------------------- lengths and listed parameters

  /** The message types that are decoded, with the octets that each has at least (Q.763, tables 21 to 50). */
  ghost function Least(kind: Byte): Option<nat> {
    if 17 <= kind <= 22 then Some(1)
    else if kind in {5, 8, 9, 16} then Some(2)
    else if kind in {2, 12, 13, 14, 44, 47} then Some(3)
    else if kind in {3, 4, 6, 7} then Some(4)
    else if kind == 1 then Some(8)
    else None
  }

  /** No octets, an unknown type and a message that is too short are told apart. */
  lemma ShortIff(b: Bytes)
    ensures Decode([]) == Decoded(0, EMPTY, Empty)
    ensures b != [] && Least(b[0]).None? ==> Decode(b) == Decoded(b[0], EMPTY, Unsupported)
    ensures b != [] && Least(b[0]).Some? ==> Decode(b).kind == b[0] && Decode(b).error in {NoError, Truncated}
    ensures b != [] && Least(b[0]).Some? && |b| < Least(b[0]).value ==>
              Decode(b) == Decoded(b[0], EMPTY, Truncated)
  {
    hide ReadVariables, ReadOptional;
  }

  /** A pointer may point right behind the message, but no further. */
  lemma PointerIff(m: Fields, b: Bytes, ptrPos: nat)
    requires ptrPos < |b| && b[ptrPos] != 0 && ptrPos + b[ptrPos] as int >= |b|
    ensures ReadOptional(m, b, ptrPos) == Outcome(m, ptrPos + b[ptrPos] as int > |b|)
  {
  }

  /** A message without variable parameters is complete at that length, when its last octet points nowhere. */
  lemma LeastIsEnough(b: Bytes)
    requires b != [] && b[0] !in {1, 2, 12, 47} && Least(b[0]).Some? && |b| == Least(b[0]).value
    requires b[0] in {5, 17, 18, 19, 20, 21, 22} || b[|b| - 1] == 0
    ensures Decode(b).error == NoError && Decode(b).fields == EMPTY.(event := Decode(b).fields.event)
    ensures b[0] == 44 <==> Decode(b).fields.event.Some?
  {
    hide ParseOptional;
  }

  /** Redirection, connected, location and generic numbers are listed by their digits. */
  lemma ListedAs(signals: seq<nat>, p: Party, qualifier: Byte)
    requires forall i :: 0 <= i < |signals| ==> signals[i] < 16
    requires p.nature < 128 && p.plan < 8 && p.presentation < 4 && p.screening < 4
    requires NoFiller(signals) && p.digits == DigitText(signals)
    ensures forall code: Byte :: code in {12, 33, 63} ==>
              Listed(code, EncodeParty(signals, p)) == [Number(code, DigitText(signals))]
    ensures Listed(192, [qualifier] + EncodeParty(signals, p)) == [Qualified(192, qualifier, DigitText(signals))]
  {
    hide DecodeCalled, DecodeCalling, DecodeGeneric, EncodeParty, DigitText;
    PartyRoundTrip(signals, p);
    GenericRoundTrip(qualifier, signals, p);
  }

  /** Other parameters without a field are listed by their octets. */
  lemma ListedRaw(code: Byte, val: Bytes)
    requires code !in {12, 33, 63, 192}
    ensures Listed(code, val) == [Raw(code, val)]
  {
  }
}
