/**
 The receiving side of the post office (network/post.cc, machine/network.cc): packets wait in the
 socket, one at a time is buffered by the polling interrupt, the postal worker takes it and puts the
 letter into its mailbox, and threads get letters from the mailboxes.
 */
module PostOffices {
  import opened Options
  import opened Words
  import opened Packets

  /** A letter that was sent to this machine; the network may lose it. */
  datatype Sent = Sent(letter: Letter, lost: bool)

  /** Where the postal worker is in its loop. */
  datatype Worker =
    | Waiting                                     // in messageAvailable->P()
    | Woken                                       // past P, where interrupts are on again, and before Receive
    | Carrying(hdr: Header, payload: seq<Byte>)   // before the mailbox's Put

  datatype Office = Office(
    ident: Word,                                  // the address of this machine
    socket: seq<seq<Byte>>,
    inHdr: Header, inbox: seq<Byte>,              // the buffered packet, if inHdr.length is not 0
    messageAvailable: nat,
    worker: Worker,
    boxes: seq<seq<Letter>>,
    sent: seq<Sent>, put: seq<Letter>, got: seq<seq<Letter>>)

  datatype Step = Arrive(letter: Letter, lost: bool, padding: seq<Byte>) | Poll | Wake | Receive | Deliver | Get(box: nat)

  // ---------------------------------------------------------------- the steps

  /** The assertion of CheckPktAvail, for the packet that it reads. */
  predicate Addressed(w: seq<Byte>, ident: Word) {
    |w| == MaxWireSize && Decode(w).to == ident && 0 <= Decode(w).length <= MaxPacketSize
  }

  /** A packet without its padding. */
  function Unpacked(w: seq<Byte>): (Header, seq<Byte>)
    requires |w| == MaxWireSize && 0 <= Decode(w).length <= MaxPacketSize
  {
    (Decode(w), w[HeaderSize..HeaderSize + Decode(w).length])
  }

  /** Network::CheckPktAvail reads a packet. */
  predicate Reads(o: Office) {
    o.inHdr.length == 0 && o.socket != []
  }

  /** Network::CheckPktAvail, with the call of IncomingPacket at its end. */
  function Polled(o: Office): Office
    requires Reads(o) ==> Addressed(o.socket[0], o.ident)
  {
    if !Reads(o) then o
    else
      var (hdr, data) := Unpacked(o.socket[0]);
      o.(socket := o.socket[1..], inHdr := hdr, inbox := data, messageAvailable := o.messageAvailable + 1)
  }

  /** Network::Receive */
  function Received(o: Office): Office {
    o.(worker := Carrying(o.inHdr, o.inbox), inHdr := o.inHdr.(length := 0))
  }

  /** The two assertions of PostalDelivery. */
  predicate Legal(payload: seq<Byte>, numBoxes: nat) {
    |payload| >= HeaderSize && 0 <= Decode(payload).to < numBoxes && 0 <= Decode(payload).length <= MaxMailSize
    && HeaderSize + Decode(payload).length <= |payload|
  }

  predicate Enabled(o: Office, e: Step) {
    match e
    case Arrive(l, _, padding) => LetterOk(l, |o.boxes|) && l.to == o.ident && 2 * HeaderSize + |l.data| + |padding| == MaxWireSize
    case Poll => Reads(o) ==> Addressed(o.socket[0], o.ident)
    case Wake => o.worker.Waiting? && o.messageAvailable > 0
    case Receive => o.worker.Woken?
    case Deliver => o.worker.Carrying? && Legal(o.worker.payload, |o.boxes|)
    case Get(box) => box < |o.boxes| && box < |o.got| && o.boxes[box] != []
  }

  function Next(o: Office, e: Step): Office
    requires Enabled(o, e)
  {
    match e
    case Arrive(l, lost, padding) =>
      o.(sent := o.sent + [Sent(l, lost)], socket := if lost then o.socket else o.socket + [Wire(l, padding)])
    case Poll => Polled(o)
    case Wake => o.(messageAvailable := o.messageAvailable - 1, worker := Woken)
    case Receive => Received(o)
    case Deliver =>
      var l := Letters(o.worker.hdr, o.worker.payload);
      o.(worker := Waiting, boxes := o.boxes[l.toBox := o.boxes[l.toBox] + [l]], put := o.put + [l])
    case Get(box) =>
      o.(boxes := o.boxes[box := o.boxes[box][1..]], got := o.got[box := o.got[box] + [o.boxes[box][0]]])
  }

  // ---------------------------------------------------------------- the invariant

  function Surviving(sent: seq<Sent>): seq<Letter> {
    if sent == [] then [] else
    var rest := Surviving(sent[..|sent| - 1]);
    var last := sent[|sent| - 1];
    if last.lost then rest else rest + [last.letter]
  }

  function ForBox(letters: seq<Letter>, box: nat): seq<Letter> {
    if letters == [] then [] else
    var rest := ForBox(letters[..|letters| - 1], box);
    var last := letters[|letters| - 1];
    if last.toBox == box then rest + [last] else rest
  }

  function FromMachine(letters: seq<Letter>, from: Word): seq<Letter> {
    if letters == [] then [] else
    var rest := FromMachine(letters[..|letters| - 1], from);
    var last := letters[|letters| - 1];
    if last.from == from then rest + [last] else rest
  }

  /** A packet header and payload that hold l. */
  ghost predicate Holds(h: Header, payload: seq<Byte>, l: Letter, numBoxes: nat) {
    LetterOk(l, numBoxes) && h == Header(l.to, l.from, HeaderSize + |l.data|) && payload == Payload(l)
  }

  /** A packet in the socket of machine ident that holds l. */
  ghost predicate IsWire(w: seq<Byte>, l: Letter, ident: Word, numBoxes: nat) {
    LetterOk(l, numBoxes) && l.to == ident && |w| == MaxWireSize && exists padding :: w == Wire(l, padding)
  }

  /** The letters on their way: the worker's, the buffered one and those in the socket. */
  datatype Transit = Transit(worker: seq<Letter>, buffered: seq<Letter>, socket: seq<Letter>)

  ghost predicate InTransit(o: Office, t: Transit) {
    && |t.worker| == (if o.worker.Carrying? then 1 else 0)
    && (o.worker.Carrying? ==> Holds(o.worker.hdr, o.worker.payload, t.worker[0], |o.boxes|))
    && |t.buffered| == (if o.inHdr.length != 0 then 1 else 0)
    && (o.inHdr.length != 0 ==> Holds(o.inHdr, o.inbox, t.buffered[0], |o.boxes|))
    && |t.socket| == |o.socket|
    && forall i :: 0 <= i < |o.socket| ==> IsWire(o.socket[i], t.socket[i], o.ident, |o.boxes|)
  }

  /** Each box has handed out and holds, in order, the letters for it that were put. */
  ghost predicate Filed(got: seq<seq<Letter>>, boxes: seq<seq<Letter>>, put: seq<Letter>) {
    |got| == |boxes| && forall b :: 0 <= b < |boxes| ==> got[b] + boxes[b] == ForBox(put, b)
  }

  /** Every letter that was not lost is in exactly one place, in the order in which it was sent; a
      buffered packet is counted by the semaphore or by the worker that it woke. */
  ghost predicate Inv(o: Office, t: Transit) {
    && InTransit(o, t) && o.messageAvailable + (if o.worker.Woken? then 1 else 0) == |t.buffered|
    && o.put + t.worker + t.buffered + t.socket == Surviving(o.sent)
    && Filed(o.got, o.boxes, o.put)
  }

  // ---------------------------------------------------------------- every step keeps it

  lemma ArriveKeeps(o: Office, t: Transit, l: Letter, lost: bool, padding: seq<Byte>) returns (t': Transit)
    requires Inv(o, t) && Enabled(o, Arrive(l, lost, padding))
    ensures Inv(Next(o, Arrive(l, lost, padding)), t')
  {
    var o' := Next(o, Arrive(l, lost, padding));
    assert o'.sent[..|o'.sent| - 1] == o.sent;
    t' := if lost then t else t.(socket := t.socket + [l]);
    if !lost {
      assert o.put + t.worker + t.buffered + (t.socket + [l]) == (o.put + t.worker + t.buffered + t.socket) + [l];
      WireRoundTrip(l, padding);
      assert IsWire(Wire(l, padding), l, o.ident, |o.boxes|);
    }
  }

  /** The assertion of CheckPktAvail holds, and a packet is read exactly if none is buffered. */
  lemma PollKeeps(o: Office, t: Transit) returns (t': Transit)
    requires Inv(o, t)
    ensures Enabled(o, Poll) && Inv(Polled(o), t')
    ensures Reads(o) ==> Polled(o).inHdr.length != 0 && (Polled(o).inHdr, Polled(o).inbox) == Unpacked(o.socket[0])
  {
    t' := t;
    if Reads(o) {
      var l := t.socket[0];
      assert IsWire(o.socket[0], l, o.ident, |o.boxes|);
      var padding :| o.socket[0] == Wire(l, padding);
      WireRoundTrip(l, padding);
      t' := t.(buffered := [l], socket := t.socket[1..]);
      assert o.put + t.worker + t.buffered + t.socket == o.put + t.worker + t'.buffered + t'.socket;
    }
  }

  lemma WakeKeeps(o: Office, t: Transit)
    requires Inv(o, t) && Enabled(o, Wake)
    ensures Inv(Next(o, Wake), t)
  {}

  /** The worker past the semaphore finds a packet. */
  lemma ReceiveKeeps(o: Office, t: Transit) returns (t': Transit)
    requires Inv(o, t) && Enabled(o, Receive)
    ensures Inv(Next(o, Receive), t') && o.inHdr.length != 0
  {
    t' := t.(worker := t.buffered, buffered := []);
    assert o.put + t.worker + t.buffered + t.socket == o.put + t'.worker + t'.buffered + t'.socket;
  }

  /** The worker's bytes pass its assertions and are the letter. */
  lemma WorkerHolds(h: Header, payload: seq<Byte>, l: Letter, numBoxes: nat)
    requires Holds(h, payload, l, numBoxes)
    ensures Legal(payload, numBoxes) && Letters(h, payload) == l
  {
    PayloadRoundTrip(l);
  }

  lemma FiledPut(got: seq<seq<Letter>>, boxes: seq<seq<Letter>>, put: seq<Letter>, l: Letter)
    requires Filed(got, boxes, put) && 0 <= l.toBox < |boxes|
    ensures Filed(got, boxes[l.toBox := boxes[l.toBox] + [l]], put + [l])
  {
    var boxes' := boxes[l.toBox := boxes[l.toBox] + [l]];
    assert (put + [l])[..|put|] == put;
    forall b | 0 <= b < |boxes| ensures got[b] + boxes'[b] == ForBox(put + [l], b) {
      assert got[b] + boxes[b] == ForBox(put, b);
    }
  }

  lemma DeliverKeeps(o: Office, t: Transit) returns (t': Transit)
    requires Inv(o, t) && o.worker.Carrying?
    ensures Enabled(o, Deliver) && Inv(Next(o, Deliver), t')
  {
    var l := t.worker[0];
    WorkerHolds(o.worker.hdr, o.worker.payload, l, |o.boxes|);
    FiledPut(o.got, o.boxes, o.put, l);
    t' := t.(worker := []);
    assert t.worker == [l];
    assert o.put + t.worker + t.buffered + t.socket == (o.put + [l]) + t'.worker + t.buffered + t.socket;
  }

  lemma GetKeeps(o: Office, t: Transit, box: nat)
    requires Inv(o, t) && Enabled(o, Get(box))
    ensures Inv(Next(o, Get(box)), t)
  {
    var o' := Next(o, Get(box));
    forall b | 0 <= b < |o.boxes| ensures o'.got[b] + o'.boxes[b] == ForBox(o'.put, b) {
      assert o.got[b] + o.boxes[b] == ForBox(o.put, b);
    }
  }

  lemma StepKeeps(o: Office, t: Transit, e: Step) returns (t': Transit)
    requires Inv(o, t) && Enabled(o, e)
    ensures Inv(Next(o, e), t')
  {
    match e
    case Arrive(l, lost, padding) => t' := ArriveKeeps(o, t, l, lost, padding);
    case Poll => t' := PollKeeps(o, t);
    case Wake => WakeKeeps(o, t); t' := t;
    case Receive => t' := ReceiveKeeps(o, t);
    case Deliver => t' := DeliverKeeps(o, t);
    case Get(box) => GetKeeps(o, t, box); t' := t;
  }

  // ---------------------------------------------------------------- every run

  predicate LegalRun(o: Office, es: seq<Step>)
    decreases |es|
  {
    es == [] || (Enabled(o, es[0]) && LegalRun(Next(o, es[0]), es[1..]))
  }

  function After(o: Office, es: seq<Step>): Office
    requires LegalRun(o, es)
    decreases |es|
  {
    if es == [] then o else After(Next(o, es[0]), es[1..])
  }

  function Initial(ident: Word, numBoxes: nat): Office {
    Office(ident, [], Header(0, 0, 0), [], 0, Waiting, seq(numBoxes, _ => []), [], [], seq(numBoxes, _ => []))
  }

  lemma {:induction false} RunKeeps(o: Office, t: Transit, es: seq<Step>) returns (t': Transit)
    requires Inv(o, t) && LegalRun(o, es)
    ensures Inv(After(o, es), t')
    decreases |es|
  {
    t' := t;
    if es == [] {
    } else {
      t' := StepKeeps(o, t, es[0]);
      t' := RunKeeps(Next(o, es[0]), t', es[1..]);
    }
  }

  /** xs is ys with some elements left out. */
  predicate Subsequence(xs: seq<Letter>, ys: seq<Letter>) {
    xs == []
    || (ys != [] && (Subsequence(xs, ys[..|ys| - 1])
                     || (xs[|xs| - 1] == ys[|ys| - 1] && Subsequence(xs[..|xs| - 1], ys[..|ys| - 1]))))
  }

  lemma {:induction false} SubsequenceGrows(xs: seq<Letter>, ys: seq<Letter>, y: Letter)
    requires Subsequence(xs, ys)
    ensures Subsequence(xs, ys + [y]) && Subsequence(xs + [y], ys + [y])
  {
    assert (ys + [y])[..|ys|] == ys && (xs + [y])[..|xs|] == xs;
  }

  lemma {:induction false} SubsequencePrefix(xs: seq<Letter>, ys: seq<Letter>, n: nat)
    requires Subsequence(xs, ys) && n <= |xs|
    ensures Subsequence(xs[..n], ys)
    decreases |ys|
  {
    if n == |xs| {
      assert xs[..n] == xs;
    } else if n > 0 {
      var init := ys[..|ys| - 1];
      if Subsequence(xs, init) {
        SubsequencePrefix(xs, init, n);
      } else {
        SubsequencePrefix(xs[..|xs| - 1], init, n);
        assert xs[..|xs| - 1][..n] == xs[..n];
      }
    }
  }

  function All(sent: seq<Sent>): seq<Letter> {
    seq(|sent|, i requires 0 <= i < |sent| => sent[i].letter)
  }

  /** From one machine to one box. */
  function Stream(letters: seq<Letter>, box: nat, from: Word): seq<Letter> {
    FromMachine(ForBox(letters, box), from)
  }

  lemma StreamStep(letters: seq<Letter>, l: Letter, box: nat, from: Word)
    ensures Stream(letters + [l], box, from) ==
            if l.toBox == box && l.from == from then Stream(letters, box, from) + [l] else Stream(letters, box, from)
  {
    assert (letters + [l])[..|letters|] == letters;
    assert (ForBox(letters, box) + [l])[..|ForBox(letters, box)|] == ForBox(letters, box);
  }

  lemma {:induction false} SurvivorsInOrder(sent: seq<Sent>, box: nat, from: Word)
    ensures Subsequence(Stream(Surviving(sent), box, from), Stream(All(sent), box, from))
    decreases |sent|
  {
    if sent == [] {
    } else {
      var init, last := sent[..|sent| - 1], sent[|sent| - 1];
      SurvivorsInOrder(init, box, from);
      assert All(sent) == All(init) + [last.letter];
      StreamStep(All(init), last.letter, box, from);
      if !last.lost { StreamStep(Surviving(init), last.letter, box, from); }
      SubsequenceGrows(Stream(Surviving(init), box, from), Stream(All(init), box, from), last.letter);
    }
  }

  lemma {:induction false} StreamOfPrefix(xs: seq<Letter>, ys: seq<Letter>, box: nat, from: Word)
    ensures ForBox(xs, box) <= ForBox(xs + ys, box) && Stream(xs, box, from) <= Stream(xs + ys, box, from)
    decreases |ys|
  {
    if ys == [] {
      assert xs + ys == xs;
    } else {
      var init, last := ys[..|ys| - 1], ys[|ys| - 1];
      StreamOfPrefix(xs, init, box, from);
      assert xs + ys == (xs + init) + [last];
      assert ((xs + init) + [last])[..|xs + init|] == xs + init;
      StreamStep(xs + init, last, box, from);
    }
  }

  lemma {:induction false} FromPrefix(xs: seq<Letter>, ys: seq<Letter>, from: Word)
    ensures FromMachine(xs, from) <= FromMachine(xs + ys, from)
    decreases |ys|
  {
    if ys == [] {
      assert xs + ys == xs;
    } else {
      var init, last := ys[..|ys| - 1], ys[|ys| - 1];
      FromPrefix(xs, init, from);
      assert (xs + ys)[..|xs + ys| - 1] == xs + init;
    }
  }

  /** What a mailbox hands out: over any run, the letters received in a box from one machine are,
      byte for byte, a subsequence of those sent, in the order of sending. */
  lemma ReceivedInOrder(ident: Word, numBoxes: nat, es: seq<Step>, box: nat, from: Word)
    requires LegalRun(Initial(ident, numBoxes), es) && box < numBoxes
    ensures |After(Initial(ident, numBoxes), es).got| == numBoxes
    ensures var o := After(Initial(ident, numBoxes), es);
            Subsequence(FromMachine(o.got[box], from), Stream(All(o.sent), box, from))
  {
    BoxesStay(Initial(ident, numBoxes), es);
    var t := ReachedInv(ident, numBoxes, es);
    GotInOrder(After(Initial(ident, numBoxes), es), t, box, from);
  }

  lemma ReachedInv(ident: Word, numBoxes: nat, es: seq<Step>) returns (t: Transit)
    requires LegalRun(Initial(ident, numBoxes), es)
    ensures Inv(After(Initial(ident, numBoxes), es), t)
  {
    assert Inv(Initial(ident, numBoxes), Transit([], [], []));
    t := RunKeeps(Initial(ident, numBoxes), Transit([], [], []), es);
  }

  lemma GotInOrder(o: Office, t: Transit, box: nat, from: Word)
    requires Inv(o, t) && box < |o.boxes|
    ensures Subsequence(FromMachine(o.got[box], from), Stream(All(o.sent), box, from))
  {
    var rest := t.worker + t.buffered + t.socket;
    assert Surviving(o.sent) == o.put + rest;
    PrefixInOrder(o.sent, o.put, rest, o.got[box], o.boxes[box], box, from);
  }

  lemma PrefixInOrder(sent: seq<Sent>, put: seq<Letter>, rest: seq<Letter>, got: seq<Letter>, held: seq<Letter>, box: nat, from: Word)
    requires Surviving(sent) == put + rest && ForBox(put, box) == got + held
    ensures Subsequence(FromMachine(got, from), Stream(All(sent), box, from))
  {
    StreamOfPrefix(put, rest, box, from);
    FromPrefix(got, held, from);
    SurvivorsInOrder(sent, box, from);
    var mine, xs := FromMachine(got, from), Stream(put + rest, box, from);
    assert mine <= Stream(put, box, from) <= xs;
    SubsequencePrefix(xs, Stream(All(sent), box, from), |mine|);
    assert xs[..|mine|] == mine;
  }

  lemma {:induction false} BoxesStay(o: Office, es: seq<Step>)
    requires LegalRun(o, es)
    ensures |After(o, es).boxes| == |o.boxes|
    decreases |es|
  {
    if es == [] {
    } else {
      BoxesStay(Next(o, es[0]), es[1..]);
    }
  }

  /** No assertion of CheckPktAvail or PostalDelivery fails in any run, and the worker past the semaphore
      finds a packet; the semaphore is never above 1. */
  lemma AssertionsHold(ident: Word, numBoxes: nat, es: seq<Step>)
    requires LegalRun(Initial(ident, numBoxes), es)
    ensures var o := After(Initial(ident, numBoxes), es);
            && Enabled(o, Poll)
            && (o.worker.Carrying? ==> Enabled(o, Deliver))
            && (o.worker.Woken? ==> o.inHdr.length != 0 && o.messageAvailable == 0)
            && (o.inHdr.length != 0 <==> o.messageAvailable == 1 || o.worker.Woken?) && o.messageAvailable <= 1
  {
    var t := ReachedInv(ident, numBoxes, es);
    var o := After(Initial(ident, numBoxes), es);
    var t1 := PollKeeps(o, t);
    if o.worker.Carrying? { var t2 := DeliverKeeps(o, t); }
  }

  lemma {:induction false} BufferStays(o: Office, es: seq<Step>)
    requires LegalRun(o, es) && o.inHdr.length != 0 && Receive !in es
    ensures After(o, es).inHdr == o.inHdr && After(o, es).inbox == o.inbox
    decreases |es|
  {
    if es == [] {
    } else {
      BufferStays(Next(o, es[0]), es[1..]);
    }
  }

  /** What CheckPktAvail reads is what the next Receive hands out, however many steps come between: more
      polls, the worker's P, and polls between its P and its Receive. */
  lemma PolledIsReceived(ident: Word, numBoxes: nat, es: seq<Step>, more: seq<Step>)
    requires LegalRun(Initial(ident, numBoxes), es)
    requires var o := After(Initial(ident, numBoxes), es);
             && Reads(o) && Enabled(o, Poll) && LegalRun(Polled(o), more) && Receive !in more
             && Enabled(After(Polled(o), more), Receive)
    ensures var o := After(Initial(ident, numBoxes), es);
            var worker := Next(After(Polled(o), more), Receive).worker;
            (worker.hdr, worker.payload) == Unpacked(o.socket[0])
  {
    var t := ReachedInv(ident, numBoxes, es);
    var o := After(Initial(ident, numBoxes), es);
    var t1 := PollKeeps(o, t);
    BufferStays(Polled(o), more);
  }

  // ---------------------------------------------------------------- the network device

  class Network {
    const ident: Word
    var inHdr: Header
    const inbox: array<Byte>

    ghost predicate Valid()
      reads this
    {
      inbox.Length == MaxPacketSize && 0 <= inHdr.length <= MaxPacketSize
    }

    constructor (addr: Word)
      ensures Valid() && ident == addr && inHdr.length == 0 && fresh(inbox)
    {
      ident, inHdr := addr, Header(0, 0, 0);
      inbox := new Byte[MaxPacketSize];
    }

    /** Packet is what the socket would give, if there is one; arrived is the call of the handler. */
    method CheckPktAvail(packet: Option<seq<Byte>>) returns (arrived: bool)
      requires Valid()
      requires packet.Some? ==> Addressed(packet.value, ident)
      modifies this`inHdr, inbox
      ensures Valid() && arrived == (old(inHdr).length == 0 && packet.Some?)
      ensures arrived ==> inHdr == Unpacked(packet.value).0 && inbox[..inHdr.length] == Unpacked(packet.value).1
      ensures !arrived ==> inHdr == old(inHdr) && inbox[..] == old(inbox[..])
    {
      if inHdr.length != 0 { return false; }
      if packet.None? { return false; }
      var buffer := packet.value;
      inHdr := Decode(buffer);
      forall i | 0 <= i < inHdr.length { inbox[i] := buffer[HeaderSize + i]; }
      assert inbox[..inHdr.length] == buffer[HeaderSize..HeaderSize + inHdr.length];
      return true;
    }

    method Receive(data: array<Byte>) returns (hdr: Header)
      requires Valid() && data.Length == MaxPacketSize && data != inbox
      modifies this`inHdr, data
      ensures Valid() && hdr == old(inHdr) && inHdr == old(inHdr).(length := 0)
      ensures data[..hdr.length] == inbox[..hdr.length] && data[hdr.length..] == old(data[inHdr.length..])
    {
      hdr := inHdr;
      inHdr := inHdr.(length := 0);
      if hdr.length != 0 {
        forall i | 0 <= i < hdr.length { data[i] := inbox[i]; }
      }
    }

    /** The packet for the socket; what follows the data is whatever the new buffer holds. */
    method Send(hdr: Header, data: array<Byte>) returns (wire: seq<Byte>)
      requires 0 < hdr.length <= MaxPacketSize && hdr.from == ident && hdr.length as int <= data.Length
      ensures |wire| == MaxWireSize && wire[..HeaderSize + hdr.length] == Encode(hdr) + data[..hdr.length]
    {
      var buffer := new Byte[MaxWireSize];
      var h := Encode(hdr);
      forall i | 0 <= i < HeaderSize { buffer[i] := h[i]; }
      forall i | 0 <= i < hdr.length { buffer[HeaderSize + i] := data[i]; }
      wire := buffer[..];
    }

    /** PostOffice::Send up to the network: the packet is the letter. */
    method SendLetter(l: Letter) returns (wire: seq<Byte>)
      requires |l.data| <= MaxMailSize && l.from == ident
      ensures |wire| == MaxWireSize && exists padding :: wire == Wire(l, padding)
    {
      var buffer := new Byte[MaxPacketSize];
      var payload := Payload(l);
      forall i | 0 <= i < |payload| { buffer[i] := payload[i]; }
      var hdr := Header(l.to, l.from, HeaderSize + |l.data|);
      wire := Send(hdr, buffer);
      assert buffer[..hdr.length] == payload;
      assert wire == Wire(l, wire[HeaderSize + hdr.length..]);
    }
  }
}
