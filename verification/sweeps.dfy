/**
 The composite operations of the session: the write and verify sweeps over
 program memory, and the configuration-word sub-protocol. Each sweep walks
 the addresses 0 .. last_loc(max_location) with one `i` per address, so the
 mirror `pc` equals the loop index at the top of every iteration.
 */
module PicSweeps {
  import opened Options
  import opened Wire
  import opened HexImage
  import opened Programmer
  import opened PicSession

  /** The trace of `k` accepted increments. */
  function IncTrace(k: nat): seq<Event> {
    if k == 0 then [] else IncTrace(k - 1) + [Sent(IncCmd), Received("")]
  }

  /** What the write sweep does at address `a` when every acknowledgement is accepted. */
  function WriteStep(img: Image, a: nat): seq<Event> {
    var v := Get(img, a);
    if v == Erased then [Sent(IncCmd), Received("")]
    else [Sent(WriteCmd), Sent(Digits(FormatWord(v))), Received(""), Sent(IncCmd), Received("")]
  }

  /** The accepted write sweep over addresses 0 .. n-1. */
  function WriteTrace(img: Image, n: nat): seq<Event> {
    if n == 0 then [] else WriteTrace(img, n - 1) + WriteStep(img, n - 1)
  }

  /** What the verify sweep does at address `a` when every line is the expected one. */
  function VerifyStep(img: Image, a: nat): seq<Event> {
    var v := Get(img, a);
    if v == Erased then [Sent(IncCmd), Received("")]
    else [Sent(ReadCmd), Received(FormatWord(v)), Sent(IncCmd), Received("")]
  }

  /** The accepted verify sweep over addresses 0 .. n-1. */
  function VerifyTrace(img: Image, n: nat): seq<Event> {
    if n == 0 then [] else VerifyTrace(img, n - 1) + VerifyStep(img, n - 1)
  }

  /**
   What the verify sweep does at address `a` when its checks pass, with
   `line` the answer read back; the answer is only read for a non-default word.
   */
  function VerifyStepWith(img: Image, a: nat, line: string): seq<Event> {
    if Get(img, a) == Erased then [Sent(IncCmd), Received("")]
    else [Sent(ReadCmd), Received(line), Sent(IncCmd), Received("")]
  }

  /** The verify sweep over addresses 0 .. n-1 whose checks pass, `lines[a]` being the answer read at address `a`. */
  function VerifyTraceWith(img: Image, lines: seq<string>, n: nat): seq<Event>
    requires n <= |lines|
  {
    if n == 0 then [] else VerifyTraceWith(img, lines, n - 1) + VerifyStepWith(img, n - 1, lines[n - 1])
  }

  /** Every answer read for a non-default word among addresses 0 .. n-1 parses to that word: the check verify_file makes. */
  predicate LinesMatch(img: Image, lines: seq<string>, n: nat)
    requires n <= |lines|
  {
    forall a :: 0 <= a < n && Get(img, a) != Erased ==> ParseBinary(lines[a]) == Some(Get(img, a))
  }

  /** The programmer's own answers: each non-default word's numeral. */
  predicate EchoesImage(img: Image, lines: seq<string>, n: nat)
    requires n <= |lines|
  {
    forall a :: 0 <= a < n && Get(img, a) != Erased ==> lines[a] == FormatWord(Get(img, a))
  }

  /** Answers that are the words' own numerals make the line-by-line trace the accepted verify trace. */
  lemma {:induction false} EchoedTrace(img: Image, lines: seq<string>, n: nat)
    requires n <= |lines| && EchoesImage(img, lines, n)
    ensures VerifyTraceWith(img, lines, n) == VerifyTrace(img, n)
  {
    if n > 0 {
      EchoedTrace(img, lines, n - 1);
      assert VerifyStepWith(img, n - 1, lines[n - 1]) == VerifyStep(img, n - 1);
    }
  }

  /** Answers that are the words' own numerals pass verify_file's check. */
  lemma EchoedLinesMatch(img: Image, lines: seq<string>, n: nat)
    requires n <= |lines| && EchoesImage(img, lines, n)
    ensures LinesMatch(img, lines, n)
  {
    forall a | 0 <= a < n && Get(img, a) != Erased
      ensures ParseBinary(lines[a]) == Some(Get(img, a))
    {
      FormatWordRoundTrip(Get(img, a));
    }
  }

  /** Answers read later do not change the trace of the addresses before them. */
  lemma {:induction false} TraceWithPrefix(img: Image, lines: seq<string>, more: seq<string>, n: nat)
    requires n <= |lines|
    ensures VerifyTraceWith(img, lines + more, n) == VerifyTraceWith(img, lines, n)
  {
    if n > 0 {
      TraceWithPrefix(img, lines, more, n - 1);
      assert (lines + more)[n - 1] == lines[n - 1];
    }
  }

  /**
   The word at address `a` once the write sweep has covered image addresses
   0 .. n-1 starting from device address `base`: a non-default image word
   where one was written, the old content everywhere else.
   */
  function AfterWrite(d: Device, base: int, img: Image, n: nat, a: int): nat {
    if base <= a < base + n && Get(img, a - base) != Erased then Get(img, a - base) else Cell(d, a)
  }

  /** `d` is `d0` after the write sweep over image addresses 0 .. n-1 from device address `base`. */
  ghost predicate Programmed(d0: Device, base: int, img: Image, n: nat, d: Device) {
    forall a :: Cell(d, a) == AfterWrite(d0, base, img, n, a)
  }

  /** `d'` is `d` with the image word of address `i` stored under the pointer, unless that word is the default. */
  ghost predicate StoredStep(d: Device, d': Device, img: Image, i: nat) {
    forall a :: Cell(d', a) == (if a == d.pointer && Get(img, i) != Erased then Get(img, i) else Cell(d, a))
  }

  /** Every non-default image word among addresses 0 .. n-1 is stored at `base` plus its address. */
  predicate Holds(d: Device, base: int, img: Image, n: nat) {
    forall a :: 0 <= a < n && Get(img, a) != Erased ==> Cell(d, base + a) == Get(img, a)
  }

  /** How many times `tok` was sent in trace `t`. */
  function CountSent(t: seq<Event>, tok: Token): nat {
    multiset(t)[Sent(tok)]
  }

  /**
   One iteration of the write sweep at image address `i`: the word is
   written unless it is the default, then the pointer advances.
   */
  function WriteAt(q: Pic, img: Image, i: nat): (r: Res<()>)
    ensures r.Ok? ==> Events(r.pic) == Events(q) + WriteStep(img, i)
    ensures r.Ok? ==> r.pic.pc == q.pc + 1 && Dev(r.pic).pointer == Dev(q).pointer + 1
    ensures r.Ok? ==> StoredStep(Dev(q), Dev(r.pic), img, i)
    ensures Dev(r.pic).erased == Dev(q).erased && Dev(r.pic).running == Dev(q).running
    ensures Honest(q.link) ==> r.Ok? && Honest(r.pic.link)
    ensures SameSetup(q, r.pic)
    ensures StopsAtLine(r)
  {
    var v := Get(img, i);
    if v == Erased then Increment(q)
    else
      match Write(q, v)
      case Abort(e, w) => Abort(e, w)
      case Ok(_, w) =>
        var s := Increment(w);
        StoredByWrite(Dev(q), Dev(w), Dev(s.pic), img, i);
        s
  }

  /** A write of the image word under the pointer, followed by a move of the pointer, is one stored step. */
  lemma StoredByWrite(d: Device, dw: Device, d': Device, img: Image, i: nat)
    requires Get(img, i) != Erased
    requires forall a :: Cell(dw, a) == if a == d.pointer then Get(img, i) else Cell(d, a)
    requires d'.mem == dw.mem
    ensures StoredStep(d, d', img, i)
  {
    forall a
      ensures Cell(d', a) == (if a == d.pointer && Get(img, i) != Erased then Get(img, i) else Cell(d, a))
    {
      assert Cell(d', a) == Cell(dw, a);
    }
  }

  /**
   One iteration of the verify sweep at image address `i`: unless the image
   word is the default, the cell is read and must equal it; then the
   pointer advances. Memory is never changed.
   */
  function VerifyAt(q: Pic, img: Image, i: nat): (r: Res<()>)
    ensures Dev(r.pic) == Dev(q).(pointer := Dev(r.pic).pointer)
    ensures r.Ok? ==> r.pic.pc == q.pc + 1 && Dev(r.pic).pointer == Dev(q).pointer + 1
    ensures Honest(q.link) ==> Honest(r.pic.link)
    ensures Honest(q.link) ==>
      (r.Ok? <==> (Get(img, i) != Erased ==> Cell(Dev(q), Dev(q).pointer) == Get(img, i)))
    ensures Honest(q.link) && r.Ok? ==> Events(r.pic) == Events(q) + VerifyStep(img, i)
    ensures r.Ok? ==> exists line ::
      && (Get(img, i) != Erased ==> ParseBinary(line) == Some(Get(img, i)))
      && Events(r.pic) == Events(q) + VerifyStepWith(img, i, line)
    ensures Honest(q.link) && r.Abort? ==>
      r.error == ReadbackMismatch(Get(img, i), Cell(Dev(q), Dev(q).pointer)) && Dev(r.pic).pointer == Dev(q).pointer
    ensures SameSetup(q, r.pic)
    ensures StopsAtLine(r)
  {
    var v := Get(img, i);
    if v == Erased then
      var s := Increment(q);
      assert s.Ok? ==> Events(s.pic) == Events(q) + VerifyStepWith(img, i, "");
      s
    else
      match Read(q)
      case Abort(e, w) => Abort(e, w)
      case Ok(x, w) =>
        if x != v then Abort(ReadbackMismatch(v, x), w)
        else
          var s := Increment(w);
          assert s.Ok? ==> Events(s.pic) == Events(q) + VerifyStepWith(img, i, ReplyTo(q.link, ReadCmd));
          s
  }

  /**
   write_file: from pc 0, for each address up to last_loc(max_location),
   writes the image word unless it is the default 0xFFFF, then increments;
   finally rewinds to 0.
   */
  method WriteFile(p: Pic, img: Image) returns (r: Res<()>)
    ensures p.pc != 0 ==> r == Abort(NotAtStart(p.pc), p)
    ensures p.pc == 0 && LastLoc(img, p.maxLocation).None? ==> r == Abort(NothingToProgram, p)
    ensures r.Ok? ==> p.pc == 0 && LastLoc(img, p.maxLocation).Some?
    ensures r.Ok? ==>
      var n := LastLoc(img, p.maxLocation).value + 1;
      && Events(r.pic) == Events(p) + WriteTrace(img, n) + [Sent(ResetCmd), Received("")]
      && Programmed(Dev(p), Dev(p).pointer, img, n, Dev(r.pic))
    ensures r.Ok? ==> r.pic.pc == 0 && Sync(r.pic)
    ensures Dev(r.pic).erased == Dev(p).erased && Dev(r.pic).running == Dev(p).running
    ensures Honest(p.link) && p.pc == 0 && LastLoc(img, p.maxLocation).Some? ==> r.Ok?
    ensures SameSetup(p, r.pic)
    ensures FailsFast(p, r)
    ensures p.pc == 0 && LastLoc(img, p.maxLocation).Some? ==> StopsAtLine(r)
  {
    if p.pc != 0 {
      return Abort(NotAtStart(p.pc), p);
    }
    var last := LastLoc(img, p.maxLocation);
    if last.None? {
      return Abort(NothingToProgram, p);
    }
    var n := last.value + 1;
    var w := WriteSweep(p, img, n);
    if w.Abort? {
      return w;
    }
    r := Reset(w.pic);
  }

  /** The loop of write_file over image addresses 0 .. n-1, with `pc` equal to the loop index at the top of each iteration. */
  method WriteSweep(p: Pic, img: Image, n: nat) returns (r: Res<()>)
    ensures r.Ok? ==> Events(r.pic) == Events(p) + WriteTrace(img, n)
    ensures r.Ok? ==> r.pic.pc == p.pc + n && Dev(r.pic).pointer == Dev(p).pointer + n
    ensures r.Ok? ==> Programmed(Dev(p), Dev(p).pointer, img, n, Dev(r.pic))
    ensures Dev(r.pic).erased == Dev(p).erased && Dev(r.pic).running == Dev(p).running
    ensures Honest(p.link) ==> r.Ok? && Honest(r.pic.link)
    ensures SameSetup(p, r.pic)
    ensures StopsAtLine(r)
  {
    var base := Dev(p).pointer;
    var q := p;
    var i := 0;
    while i < n
      invariant 0 <= i <= n
      invariant q.pc == p.pc + i && Dev(q).pointer == base + i
      invariant Events(q) == Events(p) + WriteTrace(img, i)
      invariant Programmed(Dev(p), base, img, i, Dev(q))
      invariant Dev(q).erased == Dev(p).erased && Dev(q).running == Dev(p).running
      invariant Honest(p.link) ==> Honest(q.link)
      invariant SameSetup(p, q)
    {
      var s := WriteAt(q, img, i);
      if s.Abort? {
        return s;
      }
      WriteAtAdvances(p, q, s.pic, img, base, i);
      q := s.pic;
      i := i + 1;
    }
    r := Ok((), q);
  }

  /** One accepted write iteration extends the sweep's trace and its effect on memory by address `i`. */
  lemma WriteAtAdvances(p: Pic, q: Pic, q': Pic, img: Image, base: int, i: nat)
    requires Events(q) == Events(p) + WriteTrace(img, i)
    requires Dev(q).pointer == base + i
    requires Programmed(Dev(p), base, img, i, Dev(q))
    requires Events(q') == Events(q) + WriteStep(img, i)
    requires StoredStep(Dev(q), Dev(q'), img, i)
    ensures Events(q') == Events(p) + WriteTrace(img, i + 1)
    ensures Programmed(Dev(p), base, img, i + 1, Dev(q'))
  {
  }

  /**
   verify_file: from pc 0, for each address up to last_loc(max_location),
   reads the cell and checks it against the image unless the image word is
   the default, then increments whether or not it checked; finally rewinds
   to 0. The first failed check ends the session.
   */
  method VerifyFile(p: Pic, img: Image) returns (r: Res<()>)
    ensures p.pc != 0 ==> r == Abort(NotAtStart(p.pc), p)
    ensures p.pc == 0 && LastLoc(img, p.maxLocation).None? ==> r == Abort(NothingToProgram, p)
    ensures r.Ok? ==> p.pc == 0 && LastLoc(img, p.maxLocation).Some?
    ensures r.Ok? ==> r.pic.pc == 0 && Dev(r.pic) == Dev(p).(pointer := 0)
    ensures Dev(r.pic).mem == Dev(p).mem
    ensures r.Ok? ==>
      var n := LastLoc(img, p.maxLocation).value + 1;
      exists lines :: |lines| == n && LinesMatch(img, lines, n)
        && Events(r.pic) == Events(p) + VerifyTraceWith(img, lines, n) + [Sent(ResetCmd), Received("")]
    ensures Honest(p.link) && p.pc == 0 && LastLoc(img, p.maxLocation).Some? ==>
      var n := LastLoc(img, p.maxLocation).value + 1;
      && (r.Ok? <==> Holds(Dev(p), Dev(p).pointer, img, n))
      && (r.Ok? ==> Events(r.pic) == Events(p) + VerifyTrace(img, n) + [Sent(ResetCmd), Received("")])
      && (r.Abort? ==> exists a :: FirstMismatch(Dev(p), Dev(p).pointer, img, n, a, r))
    ensures SameSetup(p, r.pic)
    ensures FailsFast(p, r)
    ensures p.pc == 0 && LastLoc(img, p.maxLocation).Some? ==> StopsAtLine(r)
  {
    if p.pc != 0 {
      return Abort(NotAtStart(p.pc), p);
    }
    var last := LastLoc(img, p.maxLocation);
    if last.None? {
      return Abort(NothingToProgram, p);
    }
    var n := last.value + 1;
    var v;
    ghost var lines;
    v, lines := VerifySweep(p, img, n);
    if v.Abort? {
      return v;
    }
    r := Reset(v.pic);
    if r.Ok? {
      RewindJoin(Events(p), Events(v.pic), Events(r.pic), VerifyTraceWith(img, lines, n));
    }
  }

  /**
   What holds at the top of iteration `i` of the verify sweep started in
   `p`: memory untouched, the pointer and `pc` advanced by `i`, and on an
   honest link every checked word matched, with the accepted trace so far.
   */
  predicate VerifyProgress(p: Pic, q: Pic, img: Image, i: nat) {
    && q.pc == p.pc + i
    && Dev(q) == Dev(p).(pointer := Dev(p).pointer + i)
    && (Honest(p.link) ==> Honest(q.link) && Holds(Dev(p), Dev(p).pointer, img, i))
    && (Honest(p.link) ==> Events(q) == Events(p) + VerifyTrace(img, i))
    && SameSetup(p, q)
  }

  /** The loop of verify_file over image addresses 0 .. n-1, with `pc` equal to the loop index at the top of each iteration. */
  method VerifySweep(p: Pic, img: Image, n: nat) returns (r: Res<()>, ghost lines: seq<string>)
    ensures Dev(r.pic) == Dev(p).(pointer := Dev(r.pic).pointer)
    ensures r.Ok? ==> ReadBacks(p, r.pic, img, lines, n)
    ensures r.Ok? ==> r.pic.pc == p.pc + n && Dev(r.pic).pointer == Dev(p).pointer + n
    ensures Honest(p.link) ==> Honest(r.pic.link)
    ensures Honest(p.link) ==> (r.Ok? <==> Holds(Dev(p), Dev(p).pointer, img, n))
    ensures Honest(p.link) && r.Ok? ==> Events(r.pic) == Events(p) + VerifyTrace(img, n)
    ensures Honest(p.link) && r.Abort? ==> exists a :: FirstMismatch(Dev(p), Dev(p).pointer, img, n, a, r)
    ensures SameSetup(p, r.pic)
    ensures StopsAtLine(r)
  {
    var q := p;
    var i := 0;
    lines := [];
    while i < n
      invariant 0 <= i <= n
      invariant VerifyProgress(p, q, img, i)
      invariant ReadBacks(p, q, img, lines, i)
    {
      var s := VerifyNext(p, q, img, n, i);
      if s.Abort? {
        return s, lines;
      }
      lines := ExtendLines(p, q, s.pic, img, lines, i);
      q := s.pic;
      i := i + 1;
    }
    r := Ok((), q);
  }

  /**
   The checks of the verify sweep started in `p` have passed for addresses
   0 .. i-1: `lines` holds the answer read at each address, every answer for
   a non-default word parsed to that word, and the trace is made of them.
   */
  predicate ReadBacks(p: Pic, q: Pic, img: Image, lines: seq<string>, i: nat) {
    && |lines| == i
    && LinesMatch(img, lines, i)
    && Events(q) == Events(p) + VerifyTraceWith(img, lines, i)
  }

  /** One more accepted address extends the passed checks by the answer read there. */
  lemma ExtendLines(p: Pic, q: Pic, q': Pic, img: Image, lines: seq<string>, i: nat) returns (lines': seq<string>)
    requires ReadBacks(p, q, img, lines, i)
    requires exists line ::
      && (Get(img, i) != Erased ==> ParseBinary(line) == Some(Get(img, i)))
      && Events(q') == Events(q) + VerifyStepWith(img, i, line)
    ensures ReadBacks(p, q', img, lines', i + 1)
  {
    var line :| (Get(img, i) != Erased ==> ParseBinary(line) == Some(Get(img, i)))
      && Events(q') == Events(q) + VerifyStepWith(img, i, line);
    TraceWithPrefix(img, lines, [line], i);
    assert (lines + [line])[i] == line;
    lines' := lines + [line];
  }

  /** Iteration `i` of the verify sweep: either it keeps the progress invariant one address further, or it is the sweep's abort. */
  method VerifyNext(p: Pic, q: Pic, img: Image, n: nat, i: nat) returns (s: Res<()>)
    requires i < n && VerifyProgress(p, q, img, i)
    ensures s.Ok? ==> VerifyProgress(p, s.pic, img, i + 1)
    ensures s.Ok? ==> exists line ::
      && (Get(img, i) != Erased ==> ParseBinary(line) == Some(Get(img, i)))
      && Events(s.pic) == Events(q) + VerifyStepWith(img, i, line)
    ensures s.Abort? ==> Dev(s.pic) == Dev(p).(pointer := Dev(s.pic).pointer) && SameSetup(p, s.pic) && StopsAtLine(s)
    ensures s.Abort? && Honest(p.link) ==>
      Honest(s.pic.link) && !Holds(Dev(p), Dev(p).pointer, img, n) && FirstMismatch(Dev(p), Dev(p).pointer, img, n, i, s)
  {
    s := VerifyAt(q, img, i);
    if s.Abort? && Honest(p.link) {
      MismatchHere(Dev(p), Dev(q), Dev(p).pointer, img, n, i, s);
    } else if s.Ok? && Honest(p.link) {
      VerifyAtAdvances(Events(p), Events(q), Events(s.pic), img, i);
    }
  }

  /** A rejected readback at address `i`, after every earlier word matched, is the first mismatch. */
  lemma MismatchHere(d: Device, dq: Device, base: int, img: Image, n: nat, i: nat, s: Res<()>)
    requires i < n && dq == d.(pointer := base + i) && Holds(d, base, img, i)
    requires !(Get(img, i) != Erased ==> Cell(dq, dq.pointer) == Get(img, i))
    requires s.Abort? && s.error == ReadbackMismatch(Get(img, i), Cell(dq, dq.pointer))
    requires Dev(s.pic).pointer == dq.pointer
    ensures FirstMismatch(d, base, img, n, i, s)
    ensures !Holds(d, base, img, n)
  {
  }

  /** One accepted verify iteration extends the sweep's trace by address `i`. */
  lemma VerifyAtAdvances(e0: seq<Event>, e: seq<Event>, e': seq<Event>, img: Image, i: nat)
    requires e == e0 + VerifyTrace(img, i)
    requires e' == e + VerifyStep(img, i)
    ensures e' == e0 + VerifyTrace(img, i + 1)
  {
  }

  /**
   The verify sweep stopped at address `a`: the readback there differed
   from the image word, every earlier non-default word matched, and the
   programmer's pointer still rests on `a`.
   */
  predicate FirstMismatch(d: Device, base: int, img: Image, n: nat, a: nat, r: Res<()>) {
    && a < n
    && Get(img, a) != Erased
    && Cell(d, base + a) != Get(img, a)
    && Holds(d, base, img, a)
    && r.Abort?
    && r.error == ReadbackMismatch(Get(img, a), Cell(d, base + a))
    && Dev(r.pic).pointer == base + a
  }

  /** goto_config_word: `c`, then seven increments, leaving `pc` on the configuration word. */
  method GotoConfigWord(p: Pic) returns (r: Res<()>)
    ensures r.Ok? ==> r.pic.pc == ConfigAddress && Dev(r.pic).pointer == ConfigAddress
    ensures r.Ok? ==> Events(r.pic) == Events(p) + [Sent(ConfigCmd), Received("")] + IncTrace(7)
    ensures Dev(r.pic).mem == Dev(p).mem
    ensures Dev(r.pic).erased == Dev(p).erased && Dev(r.pic).running == Dev(p).running
    ensures Honest(p.link) ==> r.Ok?
    ensures SameSetup(p, r.pic)
    ensures StopsAtLine(r)
  {
    var e := EnterConfig(p);
    if e.Abort? {
      return e;
    }
    var q := e.pic;
    var k := 0;
    while k < 7
      invariant 0 <= k <= 7
      invariant q.pc == 0x2000 + k && Dev(q) == Dev(p).(pointer := 0x2000 + k)
      invariant Events(q) == Events(p) + [Sent(ConfigCmd), Received("")] + IncTrace(k)
      invariant Honest(p.link) ==> Honest(q.link)
      invariant SameSetup(p, q)
    {
      var s := Increment(q);
      if s.Abort? {
        return s;
      }
      q := s.pic;
      k := k + 1;
    }
    assert q.pc == ConfigAddress;
    r := Ok((), q);
  }

  /** The trace of the configuration sub-protocol writing `w`, where `line` is the readback. */
  function ConfigTrace(w: nat, line: string): seq<Event> {
    [Sent(ConfigCmd), Received("")] + IncTrace(7) + ReadBackTrace(w, line) + [Sent(ResetCmd), Received("")]
  }

  /**
   write_verify_config_file: moves to 0x2007, writes the image's
   configuration word, reads it back and checks it, then rewinds to 0.
   */
  method WriteVerifyConfigFile(p: Pic, img: Image) returns (r: Res<()>)
    ensures forall a :: a != ConfigAddress ==> Cell(Dev(r.pic), a) == Cell(Dev(p), a)
    ensures r.Ok? ==> Cell(Dev(r.pic), ConfigAddress) == ConfigWord(img)
    ensures r.Ok? ==> r.pic.pc == 0 && Sync(r.pic)
    ensures r.Ok? ==> exists line :: ParseBinary(line) == Some(ConfigWord(img)) && Events(r.pic) == Events(p) + ConfigTrace(ConfigWord(img), line)
    ensures Honest(p.link) ==> r.Ok? && Events(r.pic) == Events(p) + ConfigTrace(ConfigWord(img), FormatWord(ConfigWord(img)))
    ensures SameSetup(p, r.pic)
    ensures StopsAtLine(r)
  {
    var cword := ConfigWord(img);
    var g := GotoConfigWord(p);
    if g.Abort? {
      return g;
    }
    r := StoreAndRewind(g.pic, cword);
    if r.Ok? {
      var line :| ParseBinary(line) == Some(cword) && Events(r.pic) == Events(g.pic) + (ReadBackTrace(cword, line) + [Sent(ResetCmd), Received("")]);
      ConfigTraceJoin(Events(p), Events(g.pic), Events(r.pic), cword, line);
    }
    if Honest(p.link) {
      ConfigTraceJoin(Events(p), Events(g.pic), Events(r.pic), cword, FormatWord(cword));
    }
  }

  /** The navigation trace followed by the store-and-rewind trace is the configuration sub-protocol's trace. */
  lemma ConfigTraceJoin(e0: seq<Event>, e1: seq<Event>, e2: seq<Event>, w: nat, line: string)
    requires e1 == e0 + [Sent(ConfigCmd), Received("")] + IncTrace(7)
    requires e2 == e1 + (ReadBackTrace(w, line) + [Sent(ResetCmd), Received("")])
    ensures e2 == e0 + ConfigTrace(w, line)
  {
  }

  /** The tail of write_verify_config_file: write and read back `w` under the pointer, then rewind. */
  method StoreAndRewind(q: Pic, w: nat) returns (r: Res<()>)
    ensures forall a :: a != Dev(q).pointer ==> Cell(Dev(r.pic), a) == Cell(Dev(q), a)
    ensures r.Ok? ==> Cell(Dev(r.pic), Dev(q).pointer) == w
    ensures r.Ok? ==> r.pic.pc == 0 && Sync(r.pic)
    ensures r.Ok? ==> exists line :: ParseBinary(line) == Some(w) && Events(r.pic) == Events(q) + (ReadBackTrace(w, line) + [Sent(ResetCmd), Received("")])
    ensures Honest(q.link) ==> r.Ok? && Events(r.pic) == Events(q) + (ReadBackTrace(w, FormatWord(w)) + [Sent(ResetCmd), Received("")])
    ensures SameSetup(q, r.pic)
    ensures StopsAtLine(r)
  {
    var c := WriteReadBack(q, w);
    if c.Abort? {
      return c;
    }
    r := Reset(c.pic);
    if r.Ok? {
      RewindJoin(Events(q), Events(c.pic), Events(r.pic), ReadBackTrace(w, LastLine(Events(c.pic))));
    }
  }

  /** A step's trace followed by an accepted `R` appends both, in that order. */
  lemma RewindJoin(e0: seq<Event>, e1: seq<Event>, e2: seq<Event>, step: seq<Event>)
    requires e1 == e0 + step
    requires e2 == e1 + [Sent(ResetCmd), Received("")]
    ensures e2 == e0 + (step + [Sent(ResetCmd), Received("")])
  {
  }

  /**
   An image without a configuration word yields the padding value 0xFFFF,
   which the session still writes: its payload is longer than the 14 digits
   of a program word, unlike anything write_file sends for a 14-bit image.
   */
  lemma MissingConfigWordIsWide(img: Image)
    requires ConfigAddress !in img
    ensures |FormatWord(ConfigWord(img))| > WordWidth
  {
    FormatWordWidth(ConfigWord(img));
  }

  /** The line of the last event, if it is a read. */
  function LastLine(t: seq<Event>): string {
    if |t| > 0 && t[|t| - 1].Received? then t[|t| - 1].line else ""
  }

  /** The trace of writing `w` and reading back `line`, both acknowledgements accepted. */
  function ReadBackTrace(w: nat, line: string): seq<Event> {
    [Sent(WriteCmd), Sent(Digits(FormatWord(w))), Received(""), Sent(ReadCmd), Received(line)]
  }

  /** Writes `w` under the pointer, reads it back and checks the readback equals `w`. */
  function WriteReadBack(q: Pic, w: nat): (r: Res<()>)
    ensures forall a :: a != Dev(q).pointer ==> Cell(Dev(r.pic), a) == Cell(Dev(q), a)
    ensures Dev(r.pic).pointer == Dev(q).pointer && r.pic.pc == q.pc
    ensures r.Ok? ==> Cell(Dev(r.pic), Dev(q).pointer) == w
    ensures r.Ok? ==> ParseBinary(LastLine(Events(r.pic))) == Some(w)
    ensures r.Ok? ==> Events(r.pic) == Events(q) + ReadBackTrace(w, LastLine(Events(r.pic)))
    ensures Honest(q.link) ==> r.Ok? && Honest(r.pic.link) && Events(r.pic) == Events(q) + ReadBackTrace(w, FormatWord(w))
    ensures SameSetup(q, r.pic)
    ensures StopsAtLine(r)
  {
    match Write(q, w)
    case Abort(e, q1) => Abort(e, q1)
    case Ok(_, q1) =>
      match Read(q1)
      case Abort(e, q2) => Abort(e, q2)
      case Ok(x, q2) =>
        if x != w then Abort(ReadbackMismatch(w, x), q2)
        else
          assert Events(q2) == Events(q) + ReadBackTrace(w, ReplyTo(q1.link, ReadCmd));
          Ok((), q2)
  }

  /** One address of the write sweep: one `i`, one `w` exactly when the word is not the default, no `r`. */
  lemma WriteStepCounts(img: Image, a: nat)
    ensures CountSent(WriteStep(img, a), IncCmd) == 1
    ensures CountSent(WriteStep(img, a), WriteCmd) == if Get(img, a) != Erased then 1 else 0
    ensures CountSent(WriteStep(img, a), ReadCmd) == 0
  {
  }

  /** One address of the verify sweep: one `i`, one `r` exactly when the word is not the default, no `w`. */
  lemma VerifyStepCounts(img: Image, a: nat)
    ensures CountSent(VerifyStep(img, a), IncCmd) == 1
    ensures CountSent(VerifyStep(img, a), ReadCmd) == if Get(img, a) != Erased then 1 else 0
    ensures CountSent(VerifyStep(img, a), WriteCmd) == 0
  {
  }

  /**
   A session that writes the image and then verifies it. Starting in step
   at address 0, a successful run leaves every non-default image word in
   its cell; on a blank chip every cell up to last_loc then equals the
   image's word, defaults included. On an honest link the verification
   cannot fail, because it reads exactly what the write sweep stored.
   */
  method WriteThenVerify(p: Pic, img: Image) returns (r: Res<()>)
    ensures r.Ok? ==> LastLoc(img, p.maxLocation).Some? && r.pic.pc == 0 && Sync(r.pic)
    ensures r.Ok? && Sync(p) ==> Holds(Dev(r.pic), 0, img, LastLoc(img, p.maxLocation).value + 1)
    ensures r.Ok? && Sync(p) && Dev(p).mem == map[] ==>
      forall a :: 0 <= a <= LastLoc(img, p.maxLocation).value ==> Cell(Dev(r.pic), a) == Get(img, a)
    ensures Honest(p.link) && Sync(p) && p.pc == 0 && LastLoc(img, p.maxLocation).Some? ==> r.Ok?
    ensures FailsFast(p, r)
  {
    var w := WriteFile(p, img);
    if w.Abort? {
      return w;
    }
    assert w.pic.pc == 0 && LastLoc(img, w.pic.maxLocation).Some?;
    r := VerifyFile(w.pic, img);
    if Sync(p) {
      var n := LastLoc(img, p.maxLocation).value + 1;
      ProgrammedHolds(Dev(p), 0, img, n, Dev(w.pic));
    }
  }

  /** Whatever the write sweep stored is what the verify sweep checks for. */
  lemma ProgrammedHolds(d0: Device, base: int, img: Image, n: nat, d: Device)
    requires Programmed(d0, base, img, n, d)
    ensures Holds(d, base, img, n)
  {
  }

  /** `k` accepted increments send `i` exactly `k` times and nothing else. */
  lemma {:induction false} IncTraceCounts(k: nat)
    ensures CountSent(IncTrace(k), IncCmd) == k
    ensures CountSent(IncTrace(k), WriteCmd) == 0
  {
    if k > 0 {
      IncTraceCounts(k - 1);
      assert multiset(IncTrace(k)) == multiset(IncTrace(k - 1)) + multiset([Sent(IncCmd), Received("")]);
    }
  }

  /** Over a run of default words the write sweep only increments. */
  lemma {:induction false} DefaultRun(img: Image, lo: nat, hi: nat)
    requires lo <= hi
    requires forall a :: lo <= a < hi ==> Get(img, a) == Erased
    ensures WriteTrace(img, hi) == WriteTrace(img, lo) + IncTrace(hi - lo)
    decreases hi - lo
  {
    if lo < hi {
      DefaultRun(img, lo, hi - 1);
      assert WriteStep(img, hi - 1) == [Sent(IncCmd), Received("")];
    }
  }

  /**
   Skip-on-default: over addresses 0 .. n-1 where only address `a` holds a
   non-default word, the write sweep increments over the defaults, writes
   once at `a`, and increments over the rest. With n = 10 and a = 5 that is
   five `i`, one `w` with its `i`, and four `i`: one `w` and ten `i`.
   */
  lemma SkipOnDefault(img: Image, n: nat, a: nat)
    requires a < n
    requires forall k :: 0 <= k < n && k != a ==> Get(img, k) == Erased
    ensures WriteTrace(img, n) == IncTrace(a) + WriteStep(img, a) + IncTrace(n - a - 1)
  {
    var before, at := IncTrace(a), WriteStep(img, a);
    DefaultRun(img, 0, a);
    assert WriteTrace(img, 0) + before == before;
    assert WriteTrace(img, a + 1) == before + at;
    DefaultRun(img, a + 1, n);
  }

  /**
   Skip-on-default in numbers: over addresses 0 .. n-1 with a single
   non-default word, the write sweep sends one `w` and `n` increments.
   */
  lemma SkipOnDefaultCounts(img: Image, n: nat, a: nat)
    requires a < n
    requires Get(img, a) != Erased
    requires forall k :: 0 <= k < n && k != a ==> Get(img, k) == Erased
    ensures CountSent(WriteTrace(img, n), WriteCmd) == 1
    ensures CountSent(WriteTrace(img, n), IncCmd) == n
  {
    SkipOnDefault(img, n, a);
    WriteStepCounts(img, a);
    OneWriteAmongIncrements(WriteTrace(img, n), a, WriteStep(img, a), n - a - 1);
  }

  /** A trace of increments around one step holding one `w` and one `i` has one `w` and one `i` per step. */
  lemma OneWriteAmongIncrements(t: seq<Event>, k: nat, step: seq<Event>, m: nat)
    requires t == IncTrace(k) + step + IncTrace(m)
    requires CountSent(step, WriteCmd) == 1 && CountSent(step, IncCmd) == 1
    ensures CountSent(t, WriteCmd) == 1
    ensures CountSent(t, IncCmd) == k + m + 1
  {
    IncTraceCounts(k);
    IncTraceCounts(m);
    assert multiset(t) == multiset(IncTrace(k)) + multiset(step) + multiset(IncTrace(m));
  }

  /** The example of ten addresses with only address 5 populated: one `w`, ten `i`. */
  lemma SkipOnDefaultExample(img: Image)
    requires Get(img, 5) != Erased
    requires forall k :: 0 <= k < 10 && k != 5 ==> Get(img, k) == Erased
    ensures CountSent(WriteTrace(img, 10), WriteCmd) == 1
    ensures CountSent(WriteTrace(img, 10), IncCmd) == 10
  {
    SkipOnDefaultCounts(img, 10, 5);
  }
}
