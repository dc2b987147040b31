/** The laws of the twelve codecs, stated against one table of message shapes written
    from the word layouts ipc-protocol/src/codec.rs documents and the field types its
    decoders check. */
module IpcShapes {
  import opened Bits
  import opened Options
  import opened IpcMessages
  import opened IpcCodec

  // ---------------------------------------------------------------------------
  // The table
  // ---------------------------------------------------------------------------

  datatype Protocol =
    | FsAsk | FsReply | DriverAsk | DriverReply | DisplayAsk | DisplayReply
    | MmAsk | MmReply | NetAsk | NetReply | SecurityAsk | SecurityReply

  function Home(p: Protocol): Namespace {
    match p
    case FsAsk | FsReply => Fs
    case DriverAsk | DriverReply => Driver
    case DisplayAsk | DisplayReply => Display
    case MmAsk | MmReply => Mm
    case NetAsk | NetReply => NetBypass
    case SecurityAsk | SecurityReply => Security
  }

  /** What a word of a message may hold: any 64-bit value; a value of which 32 bits are
      kept; one whose kept 32 bits stay below a bound; a truth value, zero being false;
      a code between two bounds; a code that matters only when the word before it is 1. */
  datatype Kind = Wide | Narrow | NarrowBelow(bound: nat) | Truth | Code(lo: nat, hi: nat) | CodeAfterOne(hi: nat)

  /** The words a decoder reads, and how many zeros its encoder puts after them. */
  datatype Shape = Shape(kinds: seq<Kind>, padding: nat)

  function ShapeOf(p: Protocol, op: nat): Option<Shape> {
    match p
    case FsAsk =>
      if op == 1 then Plain([Narrow, NarrowBelow(64)])
      else if op == 2 || op == 3 then Plain([Narrow, Wide, Narrow, Narrow])
      else if op == 4 || op == 5 then Plain([Narrow])
      else None
    case FsReply =>
      if op == 1 || op == 2 || op == 3 then Plain([Narrow])
      else if op == 4 then Plain([Wide, Truth])
      else if op == 5 then Plain([])
      else if op == 6 then Plain([Code(1, 7)])
      else None
    case DriverAsk =>
      if op == 1 || op == 5 || op == 7 then Plain([])
      else if op == 2 || op == 6 then Plain([Narrow])
      else if op == 3 || op == 4 then Plain([Wide, Narrow, Narrow])
      else None
    case DriverReply =>
      if op == 1 then Plain([Narrow, Wide])
      else if op == 2 || op == 5 then Plain([Narrow])
      else if op == 3 then Plain([Code(1, 7)])
      else if op == 4 then Plain([])
      else None
    case DisplayAsk =>
      if op == 1 || op == 4 || op == 5 then Plain([])
      else if op == 2 then Plain([Narrow, Narrow, Narrow, Narrow])
      else if op == 3 then Plain([Narrow])
      else None
    case DisplayReply =>
      if op == 1 then Plain([Narrow])
      else if op == 2 || op == 3 || op == 4 then Plain([])
      else if op == 5 then Plain([Narrow, Narrow, Narrow, Narrow])
      else if op == 6 then Plain([Code(1, 3)])
      else None
    case MmAsk =>
      if op == 1 then Some(Shape([Narrow, Wide, Code(0, 2)], 1))
      else if op == 2 then Plain([Narrow])
      else if op == 3 || op == 4 || op == 7 then Plain([])
      else if op == 5 then Plain([Narrow, Narrow, Wide, Wide])
      else if op == 6 then Some(Shape([Narrow, Narrow], 1))
      else if op == 8 then Plain([Narrow, Code(0, 4), Wide, Wide])
      else if op == 9 then Plain([Wide, Code(0, 1), CodeAfterOne(4)])
      else None
    case MmReply =>
      if op == 1 || op == 2 || op == 6 || op == 7 || op == 9 then Plain([])
      else if op == 3 || op == 10 then Plain([Narrow])
      else if op == 4 then Plain([Wide])
      else if op == 5 then Plain([Code(1, 1)])
      else if op == 8 then Plain([Narrow, Narrow])
      else None
    case NetAsk =>
      if op == 1 || op == 2 then Plain([Narrow])
      else if op == 3 then Plain([])
      else None
    case NetReply =>
      if op == 1 then Plain([Narrow, Narrow, Narrow, Narrow])
      else if op == 2 || op == 3 || op == 4 then Plain([])
      else None
    case SecurityAsk =>
      if op == 1 then Plain([Narrow, Narrow, Narrow])
      else if op == 2 then Plain([Narrow])
      else None
    case SecurityReply =>
      if op == 1 || op == 2 then Plain([Narrow])
      else if op == 3 then Plain([Code(1, 3)])
      else None
  }

  function Plain(kinds: seq<Kind>): Option<Shape> {
    Some(Shape(kinds, 0))
  }

  predicate Allowed(k: Kind, before: U64, w: U64) {
    match k
    case Wide | Narrow | Truth => true
    case NarrowBelow(bound) => w % 0x1_0000_0000 < bound
    case Code(lo, hi) => lo <= w <= hi
    case CodeAfterOne(hi) => before == 1 ==> w <= hi
  }

  function Canonical(k: Kind, before: U64, w: U64): U64 {
    match k
    case Wide => w
    case Narrow | NarrowBelow(_) => w % 0x1_0000_0000
    case Truth => if w == 0 then 0 else 1
    case Code(_, _) => w
    case CodeAfterOne(_) => if before == 1 then w else 0
  }

  function Before(words: seq<U64>, i: nat): U64
    requires i < |words|
  {
    if i == 0 then 0 else words[i - 1]
  }

  predicate AllAllowed(kinds: seq<Kind>, words: seq<U64>)
    requires |kinds| <= |words|
  {
    forall i: nat :: i < |kinds| ==> Allowed(kinds[i], Before(words, i), words[i])
  }

  function CanonicalWords(shape: Shape, words: seq<U64>): (r: seq<U64>)
    requires |shape.kinds| <= |words|
    ensures |r| == |shape.kinds| + shape.padding
  {
    seq(|shape.kinds| + shape.padding, i requires 0 <= i < |shape.kinds| + shape.padding =>
      if i < |shape.kinds| then Canonical(shape.kinds[i], Before(words, i), words[i]) else 0)
  }

  /** The error a message calls for, if any, in the order the checks are made. */
  function Verdict(p: Protocol, m: SmallMessage): Option<DecodeError> {
    if m.tag / TWO56 != Number(Home(p)) then Some(WrongNamespace)
    else if m.tag / 256 % 0x1_0000 != PROTOCOL_VERSION then Some(VersionMismatch)
    else if p == SecurityReply && m.words == [] then Some(Truncated)
    else
      match ShapeOf(p, m.tag % 256)
      case None => Some(UnknownOpcode)
      case Some(shape) =>
        if |m.words| < |shape.kinds| then Some(Truncated)
        else if !AllAllowed(shape.kinds, m.words) then Some(BadField)
        else None
  }

  predicate Accepted(p: Protocol, m: SmallMessage) {
    Verdict(p, m) == None
  }

  /** Bits 24 to 55 of the tag cleared, surplus words dropped, the words read put in
      their canonical form, and the zeros the encoder adds. */
  function NormalForm(p: Protocol, m: SmallMessage): RawMessage
    requires Accepted(p, m)
  {
    RawMessage(m.tag / TWO56 * TWO56 + m.tag % 0x100_0000, CanonicalWords(ShapeOf(p, m.tag % 256).value, m.words))
  }

  // ---------------------------------------------------------------------------
  // All twelve codecs as one
  // ---------------------------------------------------------------------------

  datatype Payload =
    | AFsRequest(fsRequest: FsRequest)
    | AnFsResponse(fsResponse: FsResponse)
    | ADriverRequest(driverRequest: DriverRequest)
    | ADriverResponse(driverResponse: DriverResponse)
    | ADisplayRequest(displayRequest: DisplayRequest)
    | ADisplayResponse(displayResponse: DisplayResponse)
    | AnMmRequest(mmRequest: MmRequest)
    | AnMmResponse(mmResponse: MmResponse)
    | ANetRequest(netRequest: NetBypassRequest)
    | ANetResponse(netResponse: NetBypassResponse)
    | ASecurityRequest(securityRequest: SecurityRequest)
    | ASecurityResponse(securityResponse: SecurityResponse)

  function Speaks(x: Payload): Protocol {
    match x
    case AFsRequest(_) => FsAsk
    case AnFsResponse(_) => FsReply
    case ADriverRequest(_) => DriverAsk
    case ADriverResponse(_) => DriverReply
    case ADisplayRequest(_) => DisplayAsk
    case ADisplayResponse(_) => DisplayReply
    case AnMmRequest(_) => MmAsk
    case AnMmResponse(_) => MmReply
    case ANetRequest(_) => NetAsk
    case ANetResponse(_) => NetReply
    case ASecurityRequest(_) => SecurityAsk
    case ASecurityResponse(_) => SecurityReply
  }

  function Encode(x: Payload): SmallMessage {
    match x
    case AFsRequest(v) => EncodeFsRequest(v)
    case AnFsResponse(v) => EncodeFsResponse(v)
    case ADriverRequest(v) => EncodeDriverRequest(v)
    case ADriverResponse(v) => EncodeDriverResponse(v)
    case ADisplayRequest(v) => EncodeDisplayRequest(v)
    case ADisplayResponse(v) => EncodeDisplayResponse(v)
    case AnMmRequest(v) => EncodeMmRequest(v)
    case AnMmResponse(v) => EncodeMmResponse(v)
    case ANetRequest(v) => EncodeNetBypassRequest(v)
    case ANetResponse(v) => EncodeNetBypassResponse(v)
    case ASecurityRequest(v) => EncodeSecurityRequest(v)
    case ASecurityResponse(v) => EncodeSecurityResponse(v)
  }

  function Decode(p: Protocol, m: SmallMessage): Decoded<Payload> {
    match p
    case FsAsk => var v :- DecodeFsRequest(m); Ok(AFsRequest(v))
    case FsReply => var v :- DecodeFsResponse(m); Ok(AnFsResponse(v))
    case DriverAsk => var v :- DecodeDriverRequest(m); Ok(ADriverRequest(v))
    case DriverReply => var v :- DecodeDriverResponse(m); Ok(ADriverResponse(v))
    case DisplayAsk => var v :- DecodeDisplayRequest(m); Ok(ADisplayRequest(v))
    case DisplayReply => var v :- DecodeDisplayResponse(m); Ok(ADisplayResponse(v))
    case MmAsk => var v :- DecodeMmRequest(m); Ok(AnMmRequest(v))
    case MmReply => var v :- DecodeMmResponse(m); Ok(AnMmResponse(v))
    case NetAsk => var v :- DecodeNetBypassRequest(m); Ok(ANetRequest(v))
    case NetReply => var v :- DecodeNetBypassResponse(m); Ok(ANetResponse(v))
    case SecurityAsk => var v :- DecodeSecurityRequest(m); Ok(ASecurityRequest(v))
    case SecurityReply => var v :- DecodeSecurityResponse(m); Ok(ASecurityResponse(v))
  }

  /** A decoder's answer is the one the table calls for: its error, or a value that
      re-encodes to the message's normal form. */
  ghost predicate Meets(p: Protocol, m: SmallMessage) {
    match Decode(p, m)
    case Err(e) => Verdict(p, m) == Some(e)
    case Ok(x) => Accepted(p, m) && Speaks(x) == p && Encode(x) == NormalForm(p, m)
  }

  // ---------------------------------------------------------------------------
  // Decoders against the table
  // ---------------------------------------------------------------------------

  /** The shared head of every decoder. */
  lemma OpcodeMeaning(ns: Namespace, m: SmallMessage)
    ensures Opcode(ns, m) ==
            if m.tag / TWO56 != Number(ns) then Err(WrongNamespace)
            else if m.tag / 256 % 0x1_0000 != PROTOCOL_VERSION then Err(VersionMismatch)
            else Ok(m.tag % 256)
    ensures Opcode(ns, m).Ok? ==> Label(ns, m.tag % 256) == m.tag / TWO56 * TWO56 + m.tag % 0x100_0000
  {
    hide Label, FromLabel, LabelParts;
    LabelFields(m.tag);
    LabelIsSum(ns, m.tag % 256);
  }

  lemma FsRequestMeets(m: SmallMessage)
    ensures Meets(FsAsk, m)
  {
    hide Opcode, Label;
    OpcodeMeaning(Fs, m);
  }

  lemma FsResponseMeets(m: SmallMessage)
    ensures Meets(FsReply, m)
  {
    hide Opcode, Label;
    OpcodeMeaning(Fs, m);
  }

  lemma DriverRequestMeets(m: SmallMessage)
    ensures Meets(DriverAsk, m)
  {
    hide Opcode, Label;
    OpcodeMeaning(Driver, m);
  }

  lemma DriverResponseMeets(m: SmallMessage)
    ensures Meets(DriverReply, m)
  {
    hide Opcode, Label;
    OpcodeMeaning(Driver, m);
  }

  lemma DisplayRequestMeets(m: SmallMessage)
    ensures Meets(DisplayAsk, m)
  {
    hide Opcode, Label;
    OpcodeMeaning(Display, m);
  }

  lemma DisplayResponseMeets(m: SmallMessage)
    ensures Meets(DisplayReply, m)
  {
    hide Opcode, Label;
    OpcodeMeaning(Display, m);
  }

  lemma MmRequestMeets(m: SmallMessage)
    ensures Meets(MmAsk, m)
  {
    if m.tag % 256 < 4 {
      EarlyMmRequestMeets(m);
    } else if m.tag % 256 < 6 {
      MiddleMmRequestMeets(m);
    } else if m.tag % 256 == 9 {
      QueryComputePoolMeets(m);
    } else {
      LateMmRequestMeets(m);
    }
  }

  lemma MiddleMmRequestMeets(m: SmallMessage)
    requires 4 <= m.tag % 256 < 6
    ensures Meets(MmAsk, m)
  {
    hide Opcode, Label;
    OpcodeMeaning(Mm, m);
  }

  lemma EarlyMmRequestMeets(m: SmallMessage)
    requires m.tag % 256 < 4
    ensures Meets(MmAsk, m)
  {
    hide Opcode, Label;
    OpcodeMeaning(Mm, m);
  }

  lemma LateMmRequestMeets(m: SmallMessage)
    requires m.tag % 256 >= 6 && m.tag % 256 != 9
    ensures Meets(MmAsk, m)
  {
    hide Opcode, Label;
    OpcodeMeaning(Mm, m);
  }

  lemma QueryComputePoolMeets(m: SmallMessage)
    requires m.tag % 256 == 9
    ensures Meets(MmAsk, m)
  {
    hide Opcode, Label;
    OpcodeMeaning(Mm, m);
  }

  lemma MmResponseMeets(m: SmallMessage)
    ensures Meets(MmReply, m)
  {
    if m.tag % 256 < 6 {
      EarlyMmResponseMeets(m);
    } else {
      LateMmResponseMeets(m);
    }
  }

  lemma EarlyMmResponseMeets(m: SmallMessage)
    requires m.tag % 256 < 6
    ensures Meets(MmReply, m)
  {
    hide Opcode, Label;
    OpcodeMeaning(Mm, m);
  }

  lemma LateMmResponseMeets(m: SmallMessage)
    requires m.tag % 256 >= 6
    ensures Meets(MmReply, m)
  {
    hide Opcode, Label;
    OpcodeMeaning(Mm, m);
  }

  lemma NetBypassRequestMeets(m: SmallMessage)
    ensures Meets(NetAsk, m)
  {
    hide Opcode, Label;
    OpcodeMeaning(NetBypass, m);
  }

  lemma NetBypassResponseMeets(m: SmallMessage)
    ensures Meets(NetReply, m)
  {
    hide Opcode, Label;
    OpcodeMeaning(NetBypass, m);
  }

  lemma SecurityRequestMeets(m: SmallMessage)
    ensures Meets(SecurityAsk, m)
  {
    hide Opcode, Label;
    OpcodeMeaning(Security, m);
  }

  lemma SecurityResponseMeets(m: SmallMessage)
    ensures Meets(SecurityReply, m)
  {
    hide Opcode, Label;
    OpcodeMeaning(Security, m);
  }

  /** The table's account of every decoder, on every message. */
  lemma DecodersMeetTheTable(p: Protocol, m: SmallMessage)
    ensures Meets(p, m)
  {
    hide *;
    match p
    case FsAsk => FsRequestMeets(m);
    case FsReply => FsResponseMeets(m);
    case DriverAsk => DriverRequestMeets(m);
    case DriverReply => DriverResponseMeets(m);
    case DisplayAsk => DisplayRequestMeets(m);
    case DisplayReply => DisplayResponseMeets(m);
    case MmAsk => MmRequestMeets(m);
    case MmReply => MmResponseMeets(m);
    case NetAsk => NetBypassRequestMeets(m);
    case NetReply => NetBypassResponseMeets(m);
    case SecurityAsk => SecurityRequestMeets(m);
    case SecurityReply => SecurityResponseMeets(m);
  }

  // ---------------------------------------------------------------------------
  // Round trips
  // ---------------------------------------------------------------------------

  lemma FsCodesInvert()
    ensures forall c :: FsErrorOf(FsErrorWord(c)) == Ok(c)
  {
  }

  lemma DriverCodesInvert()
    ensures forall c :: DriverErrorOf(DriverErrorWord(c)) == Ok(c)
  {
  }

  lemma DisplayCodesInvert()
    ensures forall c :: DisplayErrorOf(DisplayErrorWord(c)) == Ok(c)
  {
  }

  lemma KindsInvert()
    ensures forall c :: ClassOf(ClassWord(c)) == Ok(c)
    ensures forall k :: KindOf(KindWord(k)) == Ok(k)
  {
  }

  lemma PackedMessage(ns: Namespace, op: nat, words: seq<U64>)
    requires op < 256 && |words| <= MSG_MAX_WORDS
    ensures Pack(ns, op, words).words == words && Opcode(ns, Pack(ns, op, words)) == Ok(op)
  {
    hide Label, Opcode;
    LabelIsSum(ns, op);
    OpcodeMeaning(ns, Pack(ns, op, words));
  }

  lemma PackedMessages(ns: Namespace)
    ensures forall op: nat, words: seq<U64> :: op < 256 && |words| <= MSG_MAX_WORDS ==>
              Pack(ns, op, words).words == words && Opcode(ns, Pack(ns, op, words)) == Ok(op)
  {
    hide Label, Opcode, Pack;
    forall op: nat, words: seq<U64> | op < 256 && |words| <= MSG_MAX_WORDS
      ensures Pack(ns, op, words).words == words && Opcode(ns, Pack(ns, op, words)) == Ok(op)
    {
      PackedMessage(ns, op, words);
    }
  }

  lemma FsRequestRoundTrip(x: Payload)
    requires x.AFsRequest?
    ensures Decode(Speaks(x), Encode(x)) == Ok(x)
  {
    hide Opcode, Label, Pack;
    PackedMessages(Fs);
  }

  lemma FsResponseRoundTrip(x: Payload)
    requires x.AnFsResponse?
    ensures Decode(Speaks(x), Encode(x)) == Ok(x)
  {
    hide Opcode, Label, Pack, FsErrorWord, FsErrorOf;
    FsCodesInvert();
    PackedMessages(Fs);
  }

  lemma DriverRequestRoundTrip(x: Payload)
    requires x.ADriverRequest?
    ensures Decode(Speaks(x), Encode(x)) == Ok(x)
  {
    hide Opcode, Label, Pack;
    PackedMessages(Driver);
  }

  lemma DriverResponseRoundTrip(x: Payload)
    requires x.ADriverResponse?
    ensures Decode(Speaks(x), Encode(x)) == Ok(x)
  {
    hide Opcode, Label, Pack, DriverErrorWord, DriverErrorOf;
    DriverCodesInvert();
    PackedMessages(Driver);
  }

  lemma DisplayRequestRoundTrip(x: Payload)
    requires x.ADisplayRequest?
    ensures Decode(Speaks(x), Encode(x)) == Ok(x)
  {
    hide Opcode, Label, Pack;
    PackedMessages(Display);
  }

  lemma DisplayResponseRoundTrip(x: Payload)
    requires x.ADisplayResponse?
    ensures Decode(Speaks(x), Encode(x)) == Ok(x)
  {
    hide Opcode, Label, Pack, DisplayErrorWord, DisplayErrorOf;
    DisplayCodesInvert();
    PackedMessages(Display);
  }

  lemma MmRequestRoundTrip(x: Payload)
    requires x.AnMmRequest?
    ensures Decode(Speaks(x), Encode(x)) == Ok(x)
  {
    hide Decode, Encode;
    if x.mmRequest.Register? || x.mmRequest.Unregister? {
      ProcessRoundTrip(x);
    } else if x.mmRequest.RegisterSwapRegion? || x.mmRequest.UnregisterSwapRegion? {
      SwapRegionRoundTrip(x);
    } else if x.mmRequest.RegisterComputePool? || x.mmRequest.QueryComputePool? {
      ComputePoolRoundTrip(x);
    } else {
      QueryRoundTrip(x);
    }
  }

  lemma ProcessRoundTrip(x: Payload)
    requires x.AnMmRequest? && (x.mmRequest.Register? || x.mmRequest.Unregister?)
    ensures Decode(Speaks(x), Encode(x)) == Ok(x)
  {
    hide Opcode, Label, Pack, ClassOf, ClassWord, KindOf, KindWord;
    KindsInvert();
    PackedMessages(Mm);
  }

  lemma SwapRegionRoundTrip(x: Payload)
    requires x.AnMmRequest? && (x.mmRequest.RegisterSwapRegion? || x.mmRequest.UnregisterSwapRegion?)
    ensures Decode(Speaks(x), Encode(x)) == Ok(x)
  {
    hide Opcode, Label, Pack, ClassOf, ClassWord, KindOf, KindWord;
    KindsInvert();
    PackedMessages(Mm);
  }

  lemma ComputePoolRoundTrip(x: Payload)
    requires x.AnMmRequest? && (x.mmRequest.RegisterComputePool? || x.mmRequest.QueryComputePool?)
    ensures Decode(Speaks(x), Encode(x)) == Ok(x)
  {
    hide Opcode, Label, Pack, ClassOf, ClassWord, KindOf, KindWord;
    KindsInvert();
    PackedMessages(Mm);
  }

  lemma QueryRoundTrip(x: Payload)
    requires x.AnMmRequest? && (x.mmRequest.QueryVictim? || x.mmRequest.QueryTotalResident? || x.mmRequest.QuerySwapVictim?)
    ensures Decode(Speaks(x), Encode(x)) == Ok(x)
  {
    hide Opcode, Label, Pack, ClassOf, ClassWord, KindOf, KindWord;
    KindsInvert();
    PackedMessages(Mm);
  }

  lemma MmResponseRoundTrip(x: Payload)
    requires x.AnMmResponse?
    ensures Decode(Speaks(x), Encode(x)) == Ok(x)
  {
    hide Opcode, Label, Pack;
    PackedMessages(Mm);
    match x.mmResponse
    case Registered =>
    case Unregistered =>
    case Victim(_) =>
    case TotalResident(_) =>
    case SwapRegionRegistered =>
    case SwapRegionUnregistered =>
    case SwapVictim(_, _) =>
    case ComputePoolRegistered =>
    case ComputePoolChosen(_) =>
    case Error(code) => assert code.Unsupported?;
  }

  lemma NetBypassRequestRoundTrip(x: Payload)
    requires x.ANetRequest?
    ensures Decode(Speaks(x), Encode(x)) == Ok(x)
  {
    hide Opcode, Label, Pack;
    PackedMessages(NetBypass);
  }

  lemma NetBypassResponseRoundTrip(x: Payload)
    requires x.ANetResponse?
    ensures Decode(Speaks(x), Encode(x)) == Ok(x)
  {
    hide Opcode, Label, Pack;
    PackedMessages(NetBypass);
  }

  lemma SecurityRequestRoundTrip(x: Payload)
    requires x.ASecurityRequest?
    ensures Decode(Speaks(x), Encode(x)) == Ok(x)
  {
    hide Opcode, Label, Pack;
    PackedMessages(Security);
  }

  lemma SecurityResponseRoundTrip(x: Payload)
    requires x.ASecurityResponse?
    ensures Decode(Speaks(x), Encode(x)) == Ok(x)
  {
    hide Opcode, Label, Pack;
    PackedMessages(Security);
  }

  /** Decoding an encoded message gives the value back. */
  lemma RoundTrip(x: Payload)
    ensures Decode(Speaks(x), Encode(x)) == Ok(x)
  {
    hide *;
    match x
    case AFsRequest(_) => FsRequestRoundTrip(x);
    case AnFsResponse(_) => FsResponseRoundTrip(x);
    case ADriverRequest(_) => DriverRequestRoundTrip(x);
    case ADriverResponse(_) => DriverResponseRoundTrip(x);
    case ADisplayRequest(_) => DisplayRequestRoundTrip(x);
    case ADisplayResponse(_) => DisplayResponseRoundTrip(x);
    case AnMmRequest(_) => MmRequestRoundTrip(x);
    case AnMmResponse(_) => MmResponseRoundTrip(x);
    case ANetRequest(_) => NetBypassRequestRoundTrip(x);
    case ANetResponse(_) => NetBypassResponseRoundTrip(x);
    case ASecurityRequest(_) => SecurityRequestRoundTrip(x);
    case ASecurityResponse(_) => SecurityResponseRoundTrip(x);
  }

  // ---------------------------------------------------------------------------
  // What the table says about all messages
  // ---------------------------------------------------------------------------

  /** Acceptance is the table's, and so is the first error reported. */
  lemma DecodesExactly(p: Protocol, m: SmallMessage)
    ensures Decode(p, m).Ok? <==> Accepted(p, m)
    ensures Decode(p, m).Err? ==> Verdict(p, m) == Some(Decode(p, m).error)
  {
    hide Decode, Encode, NormalForm, Verdict;
    DecodersMeetTheTable(p, m);
  }

  lemma ReencodesToNormalForm(p: Protocol, m: SmallMessage)
    requires Decode(p, m).Ok?
    ensures Accepted(p, m) && Encode(Decode(p, m).value) == NormalForm(p, m)
  {
    hide Decode, Encode, NormalForm, Verdict;
    DecodersMeetTheTable(p, m);
  }

  /** Two messages decode alike exactly when their normal forms agree. */
  lemma AlikeIffSameNormalForm(p: Protocol, m: SmallMessage, n: SmallMessage)
    requires Accepted(p, m) && Accepted(p, n)
    ensures Decode(p, m).Ok? && Decode(p, n).Ok?
    ensures Decode(p, m) == Decode(p, n) <==> NormalForm(p, m) == NormalForm(p, n)
  {
    hide Decode, Encode, NormalForm, Verdict;
    DecodersMeetTheTable(p, m);
    DecodersMeetTheTable(p, n);
    RoundTrip(Decode(p, m).value);
    RoundTrip(Decode(p, n).value);
  }

  /** A normal form is a message, decodes like the original, and is its own normal form. */
  lemma NormalFormIsStable(p: Protocol, m: SmallMessage)
    requires Accepted(p, m)
    ensures |NormalForm(p, m).words| <= MSG_MAX_WORDS
    ensures Decode(p, NormalForm(p, m)) == Decode(p, m)
    ensures Accepted(p, NormalForm(p, m)) && NormalForm(p, NormalForm(p, m)) == NormalForm(p, m)
  {
    hide Decode, Encode, NormalForm, Verdict;
    DecodersMeetTheTable(p, m);
    RoundTrip(Decode(p, m).value);
    DecodersMeetTheTable(p, Encode(Decode(p, m).value));
  }

  /** The messages an encoder can produce are the accepted ones in normal form. */
  lemma EncodedIffNormal(p: Protocol, m: SmallMessage)
    ensures (exists x :: Speaks(x) == p && Encode(x) == m) <==> Accepted(p, m) && NormalForm(p, m) == m
  {
    hide Decode, Encode, NormalForm, Verdict;
    DecodersMeetTheTable(p, m);
    if Accepted(p, m) && NormalForm(p, m) == m {
      var x := Decode(p, m).value;
      assert Speaks(x) == p && Encode(x) == m;
    }
    forall x | Speaks(x) == p && Encode(x) == m
      ensures Accepted(p, m) && NormalForm(p, m) == m
    {
      RoundTrip(x);
    }
  }

  /** Which messages a decoder turns away at once. */
  lemma WrongNamespaceIff(p: Protocol, m: SmallMessage)
    ensures Decode(p, m) == Err(WrongNamespace) <==> m.tag / TWO56 != Number(Home(p))
  {
    hide Decode, Encode, NormalForm, ShapeOf, AllAllowed;
    DecodersMeetTheTable(p, m);
  }

  /** At most one namespace's decoders look past the namespace of a message. */
  lemma OneNamespaceAnswers(p: Protocol, q: Protocol, m: SmallMessage)
    requires Decode(p, m) != Err(WrongNamespace) && Decode(q, m) != Err(WrongNamespace)
    ensures Home(p) == Home(q)
  {
    hide Decode, Home;
    WrongNamespaceIff(p, m);
    WrongNamespaceIff(q, m);
  }

  /** An encoded message is turned away by exactly the other namespaces' decoders. */
  lemma ForeignMessagesAreRefused(x: Payload, q: Protocol)
    ensures Decode(q, Encode(x)) == Err(WrongNamespace) <==> Home(q) != Home(Speaks(x))
  {
    hide Decode, Encode, Home, Speaks;
    RoundTrip(x);
    WrongNamespaceIff(Speaks(x), Encode(x));
    WrongNamespaceIff(q, Encode(x));
  }
}
