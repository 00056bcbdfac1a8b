/**
 The programming session: the host-side mirror `pc` of the programmer's
 address pointer, the highest programmable address, and the link. Each
 operation here is one exchange (or two) on the link; the sweeps that chain
 them are in module PicSweeps.

 A failed check aborts the session with the state reached at that moment;
 nothing is sent after the rejected line.
 */
module PicSession {
  import opened Options
  import opened Wire
  import opened Programmer

  datatype Pic = Pic(pc: int, maxLocation: int, link: Link)

  datatype Error =
    | AckMismatch(wanted: string, got: string)   // a response line differs from the expected one
    | NotBinary(got: string)                      // a read answer is not a base-2 numeral
    | ReadbackMismatch(expected: nat, read: nat)  // a read word differs from the image
    | NotAtStart(pc: int)                         // a sweep began with pc != 0
    | NothingToProgram                            // no populated address at or below max_location

  /** The outcome of an operation: the session it leaves behind, and a value or the error that stopped it. */
  datatype Res<+T> = Ok(value: T, pic: Pic) | Abort(error: Error, pic: Pic)

  /** The mirrored program counter agrees with the programmer's pointer. */
  predicate Sync(p: Pic) {
    p.pc == p.link.dev.pointer
  }

  function Dev(p: Pic): Device {
    p.link.dev
  }

  function Events(p: Pic): seq<Event> {
    p.link.events
  }

  /** The last event of the trace is the line that `e` rejected. */
  predicate RejectedLast(events: seq<Event>, e: Error) {
    && |events| > 0
    && events[|events| - 1].Received?
    && var line := events[|events| - 1].line;
    match e
    case AckMismatch(wanted, got) => line == got && got != wanted
    case NotBinary(got) => line == got && ParseBinary(got).None?
    case ReadbackMismatch(expected, read) => ParseBinary(line) == Some(read) && read != expected
    case NotAtStart(_) => false
    case NothingToProgram => false
  }

  /** An abort of an exchange stops on the spot: the last event of the trace is the line that was rejected. */
  predicate StopsAtLine<T>(r: Res<T>) {
    r.Abort? ==> RejectedLast(r.pic.link.events, r.error)
  }

  /**
   An abort stops on the spot: either it happened before anything was sent
   (`before` is then unchanged), or the last thing on the trace is the line
   that was rejected, so no command followed it.
   */
  predicate FailsFast<T>(before: Pic, r: Res<T>) {
    r.Abort? ==>
      || ((r.error.NotAtStart? || r.error.NothingToProgram?) && r.pic == before)
      || RejectedLast(r.pic.link.events, r.error)
  }

  /** Only the programmer's state and the trace can change; the fault oracle and `max_location` stay. */
  predicate SameSetup(p: Pic, q: Pic) {
    q.maxLocation == p.maxLocation && q.link.garble == p.link.garble
  }

  /** Reads one line and checks it equals `wanted`. */
  function AssertResp(p: Pic, wanted: string): (r: Res<()>)
    ensures Events(r.pic) == Events(p) + [Received(NextLine(p.link))]
    ensures Dev(r.pic) == Dev(p) && r.pic.pc == p.pc && SameSetup(p, r.pic)
    ensures r.Ok? <==> NextLine(p.link) == wanted
    ensures StopsAtLine(r)
  {
    var line := NextLine(p.link);
    var q := p.(link := Receive(p.link));
    if line == wanted then Ok((), q) else Abort(AckMismatch(wanted, line), q)
  }

  /** Sends `tok` and demands an empty acknowledgement. */
  function AssertD(p: Pic, tok: Token): (r: Res<()>)
    ensures Events(r.pic) == Events(p) + [Sent(tok), Received(ReplyTo(p.link, tok))]
    ensures Dev(r.pic) == Accept(Dev(p), tok) && r.pic.pc == p.pc && SameSetup(p, r.pic)
    ensures r.Ok? <==> ReplyTo(p.link, tok) == ""
    ensures Honest(p.link) ==> (r.Ok? <==> Answer(Dev(p), tok) == "")
    ensures StopsAtLine(r)
  {
    AssertResp(p.(link := Send(p.link, tok)), "")
  }

  /** Bulk erase: every cell reads 0xFFFF afterwards, whatever the acknowledgement. */
  function BulkErase(p: Pic): (r: Res<()>)
    ensures Events(r.pic) == Events(p) + [Sent(EraseCmd), Received(ReplyTo(p.link, EraseCmd))]
    ensures forall a :: Cell(Dev(r.pic), a) == Erased
    ensures Dev(r.pic).erased && Dev(r.pic).pointer == Dev(p).pointer
    ensures r.pic.pc == p.pc && SameSetup(p, r.pic)
    ensures r.Ok? <==> ReplyTo(p.link, EraseCmd) == ""
    ensures Honest(p.link) ==> r.Ok?
    ensures StopsAtLine(r)
  {
    AssertD(p, EraseCmd)
  }

  /**
   Reads the word under the pointer: sends `r` and parses the answer as
   binary. On an honest link the value is the stored word, because the
   programmer's 14-digit answer parses back to it.
   */
  function Read(p: Pic): (r: Res<nat>)
    ensures Events(r.pic) == Events(p) + [Sent(ReadCmd), Received(ReplyTo(p.link, ReadCmd))]
    ensures Dev(r.pic) == Dev(p) && r.pic.pc == p.pc && SameSetup(p, r.pic)
    ensures r.Ok? <==> ParseBinary(ReplyTo(p.link, ReadCmd)).Some?
    ensures r.Ok? ==> Some(r.value) == ParseBinary(ReplyTo(p.link, ReadCmd))
    ensures Honest(p.link) ==> r.Ok? && r.value == Cell(Dev(p), Dev(p).pointer)
    ensures StopsAtLine(r)
  {
    FormatWordRoundTrip(Cell(Dev(p), Dev(p).pointer));
    var l := Send(p.link, ReadCmd);
    var line := NextLine(l);
    var q := p.(link := Receive(l));
    match ParseBinary(line)
    case Some(v) => Ok(v, q)
    case None => Abort(NotBinary(line), q)
  }

  /**
   Writes `v` at the pointer: sends `w`, then the word as binary digits,
   and demands an empty acknowledgement of the digits. The programmer
   stores exactly `v` at the pointer and nowhere else.
   */
  function Write(p: Pic, v: nat): (r: Res<()>)
    ensures Events(r.pic) == Events(p) + [Sent(WriteCmd), Sent(Digits(FormatWord(v))), Received(ReplyTo(Send(p.link, WriteCmd), Digits(FormatWord(v))))]
    ensures Dev(r.pic).pointer == Dev(p).pointer
    ensures forall a :: Cell(Dev(r.pic), a) == if a == Dev(p).pointer then v else Cell(Dev(p), a)
    ensures Dev(r.pic).erased == Dev(p).erased && Dev(r.pic).running == Dev(p).running
    ensures r.pic.pc == p.pc && SameSetup(p, r.pic)
    ensures r.Ok? <==> ReplyTo(Send(p.link, WriteCmd), Digits(FormatWord(v))) == ""
    ensures Honest(p.link) ==> r.Ok?
    ensures StopsAtLine(r)
  {
    FormatWordRoundTrip(v);
    AssertD(p.(link := Send(p.link, WriteCmd)), Digits(FormatWord(v)))
  }

  /**
   Advances the pointer by one. The programmer moves in every case; the
   mirror `pc` moves only once the acknowledgement was accepted, so a
   rejected acknowledgement leaves the two out of step.
   */
  function Increment(p: Pic): (r: Res<()>)
    ensures Events(r.pic) == Events(p) + [Sent(IncCmd), Received(ReplyTo(p.link, IncCmd))]
    ensures Dev(r.pic) == Dev(p).(pointer := Dev(p).pointer + 1)
    ensures r.Ok? <==> ReplyTo(p.link, IncCmd) == ""
    ensures r.Ok? ==> r.pic.pc == p.pc + 1
    ensures r.Abort? ==> r.pic.pc == p.pc
    ensures Sync(p) ==> (Sync(r.pic) <==> r.Ok?)
    ensures Honest(p.link) ==> r.Ok?
    ensures SameSetup(p, r.pic)
    ensures StopsAtLine(r)
  {
    match AssertD(p, IncCmd)
    case Ok(_, q) => Ok((), q.(pc := q.pc + 1))
    case Abort(e, q) => Abort(e, q)
  }

  /** Rewinds to address 0. The mirror is set first, so `pc` and the pointer agree even when the acknowledgement is rejected. */
  function Reset(p: Pic): (r: Res<()>)
    ensures Events(r.pic) == Events(p) + [Sent(ResetCmd), Received(ReplyTo(p.link, ResetCmd))]
    ensures Dev(r.pic) == Dev(p).(pointer := 0)
    ensures r.pic.pc == 0 && Sync(r.pic)
    ensures r.Ok? <==> ReplyTo(p.link, ResetCmd) == ""
    ensures Honest(p.link) ==> r.Ok?
    ensures SameSetup(p, r.pic)
    ensures StopsAtLine(r)
  {
    AssertD(p.(pc := 0), ResetCmd)
  }

  /** Moves into configuration memory, address 0x2000; `pc` and the pointer agree afterwards. */
  function EnterConfig(p: Pic): (r: Res<()>)
    ensures Events(r.pic) == Events(p) + [Sent(ConfigCmd), Received(ReplyTo(p.link, ConfigCmd))]
    ensures Dev(r.pic) == Dev(p).(pointer := 0x2000)
    ensures r.pic.pc == 0x2000 && Sync(r.pic)
    ensures r.Ok? <==> ReplyTo(p.link, ConfigCmd) == ""
    ensures Honest(p.link) ==> r.Ok?
    ensures SameSetup(p, r.pic)
    ensures StopsAtLine(r)
  {
    AssertD(p.(pc := 0x2000), ConfigCmd)
  }

  /** Starts the programmed code; nothing else about the chip changes. */
  function Execute(p: Pic): (r: Res<()>)
    ensures Events(r.pic) == Events(p) + [Sent(ExecCmd), Received(ReplyTo(p.link, ExecCmd))]
    ensures Dev(r.pic) == Dev(p).(running := true)
    ensures r.pic.pc == p.pc && SameSetup(p, r.pic)
    ensures r.Ok? <==> ReplyTo(p.link, ExecCmd) == ""
    ensures Honest(p.link) ==> r.Ok?
    ensures StopsAtLine(r)
  {
    AssertD(p, ExecCmd)
  }

  /**
   Device initialisation: rewind, then bulk-erase. On success the session
   starts at address 0 with the mirror in step and every cell erased.
   */
  function InitDevice(p: Pic): (r: Res<()>)
    ensures r.Ok? ==> Events(r.pic) == Events(p) + [Sent(ResetCmd), Received(""), Sent(EraseCmd), Received("")]
    ensures r.Ok? ==> r.pic.pc == 0 && Sync(r.pic) && Dev(r.pic).mem == map[] && Dev(r.pic).erased
    ensures Honest(p.link) ==> r.Ok?
    ensures SameSetup(p, r.pic)
    ensures StopsAtLine(r)
  {
    match Reset(p)
    case Abort(e, q) => Abort(e, q)
    case Ok(_, q) => BulkErase(q)
  }

  /**
   A new session over `link` with programmable range up to `maxLocation`:
   the mirror starts at 0 and the device is initialised.
   */
  function Open(maxLocation: int, link: Link): (r: Res<()>)
    ensures r.Ok? ==> r.pic.pc == 0 && Sync(r.pic) && Dev(r.pic).mem == map[]
    ensures r.pic.maxLocation == maxLocation && r.pic.link.garble == link.garble
    ensures Honest(link) ==> r.Ok?
  {
    InitDevice(Pic(0, maxLocation, link))
  }
}
