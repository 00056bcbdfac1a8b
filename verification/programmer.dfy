/**
 The far side of the serial link: a simulated programmer attached to the
 PIC, and the line-oriented link the host talks to it through.

 The programmer follows the command table of the protocol: `R` rewinds the
 address pointer to 0, `b` bulk-erases the memory, `i` advances the pointer,
 `c` moves it to the start of configuration memory (0x2000), `w` announces a
 word whose binary digits follow as the next token, `r` answers with the
 word under the pointer as 14 or more binary digits, and `x` starts the
 program. Every command except `w` is answered with one line, empty for all
 but `r`. The host never reads after `w` itself, only after its payload.

 Lines can be garbled in transit: the link carries a fault oracle that, for
 some positions of the event trace, replaces the line the programmer sent.
 */
module Programmer {
  import opened Options
  import opened Wire

  /**
   The simulated programmer and chip. `mem` holds the cells that are not
   erased; any other cell reads as 0xFFFF. `erased` records that a bulk
   erase has happened, `running` that the chip was told to execute.
   */
  datatype Device = Device(pointer: int, mem: map<int, nat>, erased: bool, running: bool)

  /** The word stored at address `a`. */
  function Cell(d: Device, a: int): nat {
    if a in d.mem then d.mem[a] else Erased
  }

  /**
   The tokens the host writes: the seven one-letter commands, and the
   binary digits that follow `w`.
   */
  datatype Token =
    | ResetCmd     // "R"
    | EraseCmd     // "b"
    | IncCmd       // "i"
    | ConfigCmd    // "c"
    | WriteCmd     // "w"
    | ReadCmd      // "r"
    | ExecCmd      // "x"
    | Digits(text: string)

  /** The new state of the programmer after it receives `tok`. */
  function Accept(d: Device, tok: Token): Device {
    match tok
    case ResetCmd => d.(pointer := 0)
    case EraseCmd => d.(mem := map[], erased := true)
    case IncCmd => d.(pointer := d.pointer + 1)
    case ConfigCmd => d.(pointer := 0x2000)
    case ExecCmd => d.(running := true)
    case WriteCmd => d
    case ReadCmd => d
    case Digits(s) =>
      match ParseBinary(s)
      case Some(v) => d.(mem := d.mem[d.pointer := v])
      case None => d
  }

  /** The line the programmer answers `tok` with, computed in the state before `tok`. */
  function Answer(d: Device, tok: Token): string {
    match tok
    case ReadCmd => FormatWord(Cell(d, d.pointer))
    case Digits(s) => if ParseBinary(s).Some? then "" else "?"
    case _ => ""
  }

  /** What the host did on the link: send a token, or read a line. */
  datatype Event = Sent(token: Token) | Received(line: string)

  /**
   The link: the programmer, the last line it produced, the trace of
   everything that crossed the link, and the fault oracle (trace position
   of a read to the line that arrives instead of the programmer's).
   */
  datatype Link = Link(dev: Device, pending: string, events: seq<Event>, garble: map<nat, string>)

  /** No read from here on will be garbled. */
  predicate Honest(l: Link) {
    forall k :: k in l.garble ==> k < |l.events|
  }

  /** Writes `tok` to the programmer, which acts on it and prepares its answer. */
  function Send(l: Link, tok: Token): (l': Link)
    ensures l'.dev == Accept(l.dev, tok)
    ensures l'.events == l.events + [Sent(tok)]
    ensures l'.garble == l.garble
    ensures Honest(l) ==> Honest(l')
  {
    Link(Accept(l.dev, tok), Answer(l.dev, tok), l.events + [Sent(tok)], l.garble)
  }

  /** The line the next read returns: the oracle's, if it garbles this position, else the programmer's. */
  function NextLine(l: Link): (line: string)
    ensures Honest(l) ==> line == l.pending
  {
    if |l.events| in l.garble then l.garble[|l.events|] else l.pending
  }

  /** Reads one response line, recording it in the trace. */
  function Receive(l: Link): (l': Link)
    ensures l'.dev == l.dev
    ensures l'.pending == l.pending
    ensures l'.events == l.events + [Received(NextLine(l))]
    ensures l'.garble == l.garble
    ensures Honest(l) ==> Honest(l')
  {
    l.(events := l.events + [Received(NextLine(l))])
  }

  /** The line the host reads right after sending `tok`. */
  function ReplyTo(l: Link, tok: Token): (line: string)
    ensures Honest(l) ==> line == Answer(l.dev, tok)
  {
    NextLine(Send(l, tok))
  }
}
