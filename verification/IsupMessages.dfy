/**
  What a decoded ISUP message says (src/isup/decode.go): which parameter each field comes from. Calling,
  redirecting and original numbers are the last ones that can be decoded; called number, cause and
  subsequent number are the mandatory ones, else the first optional ones; all other parameters are
  listed in their order.
  */
module IsupMessages {
  import opened Octets
  import opened Text
  import opened IsupDecode

  // ---------------------------------------------------------------- looking for a parameter

  /** The first parameter with a property, or the number of parameters. */
  function First(opts: seq<Optional>, p: Optional -> bool): (k: nat)
    ensures k <= |opts| && (k < |opts| ==> p(opts[k]))
    ensures forall i :: 0 <= i < k ==> !p(opts[i])
  {
    if opts == [] || p(opts[0]) then 0
    else
      var k := First(opts[1..], p);
      assert forall i :: 1 <= i < k + 1 ==> opts[i] == opts[1..][i - 1];
      k + 1
  }

  /** The last parameter with a property, or -1. */
  function Last(opts: seq<Optional>, p: Optional -> bool): (k: int)
    ensures -1 <= k < |opts| && (k >= 0 ==> p(opts[k]))
    ensures forall i :: k < i < |opts| ==> !p(opts[i])
  {
    if opts == [] then -1
    else
      var k := Last(opts[1..], p);
      assert forall i :: 1 <= i < |opts| ==> opts[i] == opts[1..][i - 1];
      if k >= 0 then k + 1 else if p(opts[0]) then 0 else -1
  }

  /** A calling-type number under a code. */
  function PartyUnder(code: Byte): Optional -> bool {
    (o: Optional) => o.code == code && DecodeCalling(o.val).Some?
  }

  const CALLED: Optional -> bool := (o: Optional) => o.code == 4 && DecodeCalled(o.val).Some?
  const CAUSE: Optional -> bool := (o: Optional) => o.code == 18 && DecodeCause(o.val).Some?
  /** A subsequent number of no digits leaves the field as empty as it was. */
  const SUBSEQUENT: Optional -> bool :=
    (o: Optional) => o.code == 5 && DecodeSubsequent(o.val).Some? && DecodeSubsequent(o.val).value != []

  /** The number under a code that the message keeps. */
  function LastParty(opts: seq<Optional>, code: Byte): Option<Party> {
    var k := Last(opts, PartyUnder(code));
    if k < 0 then None else DecodeCalling(opts[k].val)
  }

  function FirstCalled(opts: seq<Optional>): Option<Party> {
    var k := First(opts, CALLED);
    if k == |opts| then None else DecodeCalled(opts[k].val)
  }

  function FirstCause(opts: seq<Optional>): Option<Cause> {
    var k := First(opts, CAUSE);
    if k == |opts| then None else DecodeCause(opts[k].val)
  }

  function FirstSubsequent(opts: seq<Optional>): Bytes {
    var k := First(opts, SUBSEQUENT);
    if k == |opts| then [] else DecodeSubsequent(opts[k].val).value
  }

  /** Does a parameter of this code fill a field of its own? */
  predicate Promoted(code: Byte) {
    code == 4 || code == 5 || code == 10 || code == 11 || code == 18 || code == 40
  }

  /** The parameters without a field of their own, in order. */
  function ListedAll(opts: seq<Optional>): seq<Parameter> {
    if opts == [] then []
    else (if Promoted(opts[0].code) then [] else Listed(opts[0].code, opts[0].val)) + ListedAll(opts[1..])
  }

  // ---------------------------------------------------------------- what the optional part adds

  /** One parameter, added to any message. */
  lemma AddOne(m: Fields, o: Optional)
    ensures var r := AddOptional(m, o.code, o.val);
            && r.calling == (if PartyUnder(10)(o) then DecodeCalling(o.val) else m.calling)
            && r.redirecting == (if PartyUnder(11)(o) then DecodeCalling(o.val) else m.redirecting)
            && r.original == (if PartyUnder(40)(o) then DecodeCalling(o.val) else m.original)
            && r.called == (if m.called.None? && CALLED(o) then DecodeCalled(o.val) else m.called)
            && r.cause == (if m.cause.None? && CAUSE(o) then DecodeCause(o.val) else m.cause)
            && r.subsequent == (if m.subsequent ==
                    [] && SUBSEQUENT(o) then DecodeSubsequent(o.val).value else m.subsequent)
            && r.category == m.category && r.medium == m.medium && r.event == m.event
            && r.parameters == m.parameters + if Promoted(o.code) then [] else Listed(o.code, o.val)
  {
    hide DecodeCalling, DecodeCalled, DecodeCause, DecodeSubsequent, Listed;
    assert m.parameters + [] == m.parameters;
  }

  /** The later parameter wins. */
  lemma {:induction false} LastWins(m: Fields, opts: seq<Optional>)
    ensures var r := AddAll(m, opts);
            && r.calling == (if LastParty(opts, 10).Some? then LastParty(opts, 10) else m.calling)
            && r.redirecting == (if LastParty(opts, 11).Some? then LastParty(opts, 11) else m.redirecting)
            && r.original == (if LastParty(opts, 40).Some? then LastParty(opts, 40) else m.original)
    decreases |opts|
  {
    if opts == [] {
    } else {
      hide AddOptional, DecodeCalling, DecodeCalled, DecodeCause, DecodeSubsequent, Listed, LastParty;
      AddOne(m, opts[0]);
      LastWins(AddOptional(m, opts[0].code, opts[0].val), opts[1..]);
      LastPartyCons(opts, 10);
      LastPartyCons(opts, 11);
      LastPartyCons(opts, 40);
    }
  }

  lemma LastPartyCons(opts: seq<Optional>, code: Byte)
    requires opts != []
    ensures LastParty(opts, code) ==
            if LastParty(opts[1..], code).Some? then LastParty(opts[1..], code)
            else if PartyUnder(code)(opts[0]) then DecodeCalling(opts[0].val) else None
  {
    hide DecodeCalling;
  }

  /** The mandatory parameter wins, and then the earlier one. */
  lemma {:induction false} FirstWins(m: Fields, opts: seq<Optional>)
    ensures var r := AddAll(m, opts);
            && r.called == (if m.called.Some? then m.called else FirstCalled(opts))
            && r.cause == (if m.cause.Some? then m.cause else FirstCause(opts))
            && r.subsequent == (if m.subsequent != [] then m.subsequent else FirstSubsequent(opts))
    decreases |opts|
  {
    if opts == [] {
    } else {
      hide AddOptional, DecodeCalling, DecodeCalled, DecodeCause, DecodeSubsequent, Listed;
      AddOne(m, opts[0]);
      FirstWins(AddOptional(m, opts[0].code, opts[0].val), opts[1..]);
    }
  }

  /** Nothing else changes, and the rest is listed. */
  lemma {:induction false} RestIsListed(m: Fields, opts: seq<Optional>)
    ensures var r := AddAll(m, opts);
            && r.parameters == m.parameters + ListedAll(opts)
            && r.category == m.category && r.medium == m.medium && r.event == m.event
    decreases |opts|
  {
    if opts == [] {
      assert m.parameters + [] == m.parameters;
    } else {
      hide AddOptional, Listed;
      var o := opts[0];
      AddOne(m, o);
      RestIsListed(AddOptional(m, o.code, o.val), opts[1..]);
      Assoc(m.parameters, if Promoted(o.code) then [] else Listed(o.code, o.val), ListedAll(opts[1..]));
    }
  }

  // ---------------------------------------------------------------- whole messages

  /** The called number in the mandatory part of a message. */
  function MandatoryCalled(kind: Byte, variable: seq<Bytes>): Option<Party>
    requires LayoutOf(kind).Some? && |variable| == |LayoutOf(kind).value.vars|
  {
    if LayoutOf(kind).value.vars == [VarCalled] then DecodeCalled(variable[0]) else None
  }

  function MandatoryCause(kind: Byte, variable: seq<Bytes>): Option<Cause>
    requires LayoutOf(kind).Some? && |variable| == |LayoutOf(kind).value.vars|
  {
    if LayoutOf(kind).value.vars == [VarCause] then DecodeCause(variable[0]) else None
  }

  function MandatorySubsequent(kind: Byte, variable: seq<Bytes>): Bytes
    requires LayoutOf(kind).Some? && |variable| == |LayoutOf(kind).value.vars|
  {
    if LayoutOf(kind).value.vars == [VarSubsequent] && DecodeSubsequent(variable[0]).Some?
    then DecodeSubsequent(variable[0]).value else []
  }

  function Or<T>(a: Option<T>, b: Option<T>): Option<T> {
    if a.Some? then a else b
  }

  /** The fields of a message, each with the parameter it comes from. */
  ghost predicate Says(f: Fields, kind: Byte, fixed: Bytes, variable: seq<Bytes>, opts: seq<Optional>)
    requires LayoutOf(kind).Some?
    requires |fixed| == LayoutOf(kind).value.fixed && |variable| == |LayoutOf(kind).value.vars|
  {
    && f.called == Or(MandatoryCalled(kind, variable), FirstCalled(opts))
    && f.cause == Or(MandatoryCause(kind, variable), FirstCause(opts))
    && f.subsequent == (if MandatorySubsequent(kind, variable) != [] then MandatorySubsequent(kind, variable)
                        else FirstSubsequent(opts))
    && f.calling == LastParty(opts, 10)
    && f.redirecting == LastParty(opts, 11)
    && f.original == LastParty(opts, 40)
    && f.parameters == ListedAll(opts)
    && f.category == (if kind == IAM then Some(fixed[3]) else None)
    && f.medium == (if kind == IAM then Some(fixed[4]) else None)
    && f.event == (if kind == CPG then Some(fixed[0] % 128) else None)
  }

  /** Every message of a known type is decoded without error, and this is what it says. */
  lemma MessageSays(kind: Byte, fixed: Bytes, variable: seq<Bytes>, opts: seq<Optional>)
    requires LayoutOf(kind).Some?
    requires |fixed| == LayoutOf(kind).value.fixed && |variable| == |LayoutOf(kind).value.vars|
    requires |variable| == 1 ==> Pointed(variable[0], opts)
    requires GoodOptionals(opts) && (LayoutOf(kind).value.opt || opts == [])
    ensures var d := Decode(EncodeMessage(kind, fixed, variable, opts));
            d.error == NoError && d.kind == kind && Says(d.fields, kind, fixed, variable, opts)
  {
    hide Decode, EncodeMessage, AddAll, First, Last, ListedAll, DecodeCalled, DecodeCause, DecodeSubsequent;
    MessageRoundTrip(kind, fixed, variable, opts);
    AtMostOneVariable(kind);
    var m := Mandatory(kind, fixed, variable);
    CarriedAdds(kind, fixed, variable, opts);
    MandatoryIs(kind, fixed, variable);
    LastWins(m, opts);
    FirstWins(m, opts);
    RestIsListed(m, opts);
    assert [] + ListedAll(opts) == ListedAll(opts);
  }

  /** What the message holds before its optional part is read. */
  function Mandatory(kind: Byte, fixed: Bytes, variable: seq<Bytes>): Fields
    requires LayoutOf(kind).Some?
    requires |fixed| == LayoutOf(kind).value.fixed && |variable| == |LayoutOf(kind).value.vars|
  {
    EMPTY.(called := MandatoryCalled(kind, variable), cause := MandatoryCause(kind, variable),
           subsequent := MandatorySubsequent(kind, variable),
           category := if kind == IAM then Some(fixed[3]) else None,
           medium := if kind == IAM then Some(fixed[4]) else None,
           event := if kind == CPG then Some(fixed[0] % 128) else None)
  }

  lemma MandatoryIs(kind: Byte, fixed: Bytes, variable: seq<Bytes>)
    requires LayoutOf(kind).Some?
    requires |fixed| == LayoutOf(kind).value.fixed && |variable| == |LayoutOf(kind).value.vars|
    ensures var m := Mandatory(kind, fixed, variable);
            m.calling.None? && m.redirecting.None? && m.original.None? && m.parameters == []
  {
  }

  lemma CarriedAdds(kind: Byte, fixed: Bytes, variable: seq<Bytes>, opts: seq<Optional>)
    requires LayoutOf(kind).Some? && (LayoutOf(kind).value.opt || opts == [])
    requires |fixed| == LayoutOf(kind).value.fixed && |variable| == |LayoutOf(kind).value.vars|
    ensures Carried(kind, fixed, variable, opts) == AddAll(Mandatory(kind, fixed, variable), opts)
  {
    hide DecodeCalled, DecodeCause, DecodeSubsequent;
    AtMostOneVariable(kind);
    assert LayoutOf(kind).value.vars in {[], [VarCalled], [VarCause], [VarSubsequent]};
  }

  /**
    An initial address message yields its called digits, whatever the optional part and the bits of octet 2
    outside the plan hold.
    */
  lemma IamRoundTrip(fixed: Bytes, signals: seq<nat>, p: Party, opts: seq<Optional>)
    requires |fixed| == 5 && GoodOptionals(opts)
    requires forall i :: 0 <= i < |signals| ==> signals[i] < 16
    requires p.nature < 128 && p.plan < 8 && p.presentation < 4 && p.screening < 4
    requires NoFiller(signals) && p.digits == DigitText(signals) && Pointed(EncodeParty(signals, p), opts)
    ensures var d := Decode(EncodeMessage(IAM, fixed, [EncodeParty(signals, p)], opts));
            && d.error == NoError && d.kind == IAM
            && d.fields.called == Some(AsCalled(p))
            && d.fields.category == Some(fixed[3]) && d.fields.medium == Some(fixed[4])
            && d.fields.calling == LastParty(opts, 10)
            && d.fields.redirecting == LastParty(opts, 11)
            && d.fields.original == LastParty(opts, 40)
            && d.fields.cause == FirstCause(opts)
            && d.fields.parameters == ListedAll(opts)
  {
    hide Decode, EncodeMessage, EncodeParty, DecodeCalled;
    PartyRoundTrip(signals, p);
    MessageSays(IAM, fixed, [EncodeParty(signals, p)], opts);
  }

  /** The called number of an initial address message, dialled with leading zeros, is read as it is written. */
  lemma IamCalls(fixed: Bytes, zeros: nat, k: nat, p: Party, opts: seq<Optional>)
    requires |fixed| == 5 && GoodOptionals(opts)
    requires p.nature < 128 && p.plan < 8 && p.presentation < 4 && p.screening < 4
    requires Pointed(EncodeParty(Dial(zeros, k), p), opts)
    ensures var d := Decode(EncodeMessage(IAM, fixed, [EncodeParty(Dial(zeros, k), p)], opts));
            && d.error == NoError && d.fields.called.Some?
            && d.fields.called.value.digits == seq(zeros, _ => 48) + Itoa(k)
            && d.fields.called.value.nature == p.nature && d.fields.called.value.plan == p.plan
  {
    hide Decode, EncodeMessage, DigitText, Dial;
    var q := p.(digits := DigitText(Dial(zeros, k)));
    DialText(zeros, k);
    SameCodes(Dial(zeros, k), p, q);
    IamRoundTrip(fixed, Dial(zeros, k), q, opts);
  }

  /** The digits of a party are encoded from the signals alone. */
  lemma SameCodes(signals: seq<nat>, p: Party, q: Party)
    requires forall i :: 0 <= i < |signals| ==> signals[i] < 16
    requires p.nature < 128 && p.plan < 8 && p.presentation < 4 && p.screening < 4
    requires q == p.(digits := q.digits)
    ensures EncodeParty(signals, p) == EncodeParty(signals, q)
  {
  }

  /** A subsequent address message yields its further digits, whatever the optional part holds. */
  lemma SubsequentMessageRoundTrip(signals: seq<nat>, opts: seq<Optional>)
    requires forall i :: 0 <= i < |signals| ==> signals[i] < 16
    requires signals != [] && NoFiller(signals) && GoodOptionals(opts)
    requires Pointed([if |signals| % 2 == 1 then 128 else 0] + PackDigits(signals, 0), opts)
    ensures var v := [if |signals| % 2 == 1 then 128 else 0] + PackDigits(signals, 0);
            var d := Decode(EncodeMessage(2, [], [v], opts));
            && d.error == NoError && d.kind == 2 && d.fields.subsequent == DigitText(signals)
            && d.fields.called == FirstCalled(opts) && d.fields.calling == LastParty(opts, 10)
            && d.fields.parameters == ListedAll(opts)
  {
    hide Decode, EncodeMessage, DecodeSubsequent, PackDigits;
    SubsequentRoundTrip(signals);
    MessageSays(2, [], [[if |signals| % 2 == 1 then 128 else 0] + PackDigits(signals, 0)], opts);
  }

  /** A release or confusion message yields its cause, whatever the optional part holds. */
  lemma CauseMessageRoundTrip(kind: Byte, c: Cause, recommendation: Option<Byte>, opts: seq<Optional>)
    requires kind == 12 || kind == 47
    requires c.value < 128 && c.location < 16 && GoodOptionals(opts) && Pointed(EncodeCause(c, recommendation), opts)
    ensures var d := Decode(EncodeMessage(kind, [], [EncodeCause(c, recommendation)], opts));
            && d.error == NoError && d.kind == kind && d.fields.cause == Some(c)
            && d.fields.called == FirstCalled(opts) && d.fields.calling == LastParty(opts, 10)
            && d.fields.parameters == ListedAll(opts)
  {
    hide Decode, EncodeMessage, EncodeCause, DecodeCause;
    CauseRoundTrip(c, recommendation);
    MessageSays(kind, [], [EncodeCause(c, recommendation)], opts);
  }

  /** An encoded number in the optional part is the one the message keeps, when no later one can be decoded. */
  lemma PartyKept(opts: seq<Optional>, k: nat, code: Byte, signals: seq<nat>, p: Party)
    requires forall i :: 0 <= i < |signals| ==> signals[i] < 16
    requires p.nature < 128 && p.plan < 8 && p.presentation < 4 && p.screening < 4
    requires NoFiller(signals) && p.digits == DigitText(signals)
    requires k < |opts| && opts[k] == Optional(code, EncodeParty(signals, p))
    requires forall i :: k < i < |opts| ==> !PartyUnder(code)(opts[i])
    ensures LastParty(opts, code) == Some(p)
  {
    hide EncodeParty, DecodeCalling;
    PartyRoundTrip(signals, p);
    assert PartyUnder(code)(opts[k]);
  }
}
