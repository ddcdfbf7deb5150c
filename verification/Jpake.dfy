/** The J-PAKE exchange of `s_client` and `s_server`: two scripts over two buffered byte streams. */
module Jpake {

  /** The line buffer of `readbn`. */
  const LINE_SIZE := 10240
  const HASH_LENGTH := 20
  const MESSAGES := 10
  const RAW := 9
  const END := 23

  datatype Op = Send(i: nat) | Flush | Receive(i: nat) | Finished

  /** Steps 1, 2 and 3 of `jpake_client_auth`: lines 0-5, lines 6-8, and the raw hash 9. */
  function ClientOp(pc: nat): Op {
    if pc < 6 then Send(pc)
    else if pc == 6 then Flush
    else if pc < 13 then Receive(pc - 7)
    else if pc < 16 then Send(pc - 7)
    else if pc == 16 then Flush
    else if pc < 20 then Receive(pc - 11)
    else if pc == 20 then Send(9)
    else if pc == 21 then Flush
    else if pc == 22 then Receive(9)
    else Finished
  }

  /** `jpake_server_auth` */
  function ServerOp(pc: nat): Op {
    if pc < 6 then Receive(pc)
    else if pc < 12 then Send(pc - 6)
    else if pc == 12 then Flush
    else if pc < 16 then Receive(pc - 7)
    else if pc < 19 then Send(pc - 10)
    else if pc == 19 then Flush
    else if pc == 20 then Receive(9)
    else if pc == 21 then Send(9)
    else if pc == 22 then Flush
    else Finished
  }

  function OpOf(client: bool, pc: nat): Op {
    if client then ClientOp(pc) else ServerOp(pc)
  }

  /** Bytes written, of which `flushed` have left the writer, of which `read` have been consumed. */
  datatype Stream = Stream(data: string, flushed: nat, read: nat)

  datatype Party = Party(pc: nat, got: seq<string>, aborted: bool)

  datatype State = State(client: Party, server: Party, toServer: Stream, toClient: Stream)

  /** What each side sends: nine lines and a hash. */
  datatype Script = Script(client: seq<string>, server: seq<string>)

  ghost predicate IsLine(m: string) {
    m != "" && m[|m| - 1] == '\n' && '\n' !in m[..|m| - 1]
  }

  /** The part values fit the line buffer. */
  ghost predicate Fits(messages: seq<string>) {
    && |messages| == MESSAGES
    && (forall i :: 0 <= i < RAW ==> IsLine(messages[i]) && |messages[i]| < LINE_SIZE)
    && |messages[RAW]| == HASH_LENGTH
  }

  function LineEnd(s: string, n: nat): nat
    requires n <= |s|
    decreases |s| - n
  {
    if n == |s| then n else if s[n] == '\n' then n + 1 else LineEnd(s, n + 1)
  }

  function Min(a: nat, b: nat): nat {
    if a < b then a else b
  }

  /** `BIO_gets`: a line with its newline, cut to what the buffer holds. */
  function Gets(s: string, size: nat): string
    requires size > 0
  {
    var e := Min(LineEnd(s, 0), size - 1);
    if e <= |s| then s[..e] else s
  }

  /** A blocking read returns once there is enough. */
  ghost predicate CanReceive(raw: bool, s: string) {
    if raw then |s| >= HASH_LENGTH else '\n' in s || |s| >= LINE_SIZE - 1
  }

  function Received(raw: bool, s: string): string {
    if raw then (if |s| <= HASH_LENGTH then s else s[..HASH_LENGTH]) else Gets(s, LINE_SIZE)
  }

  /** The assertions after a read. */
  predicate Expected(raw: bool, r: string) {
    if raw then |r| == HASH_LENGTH else r != "" && r[|r| - 1] == '\n'
  }

  function Available(s: Stream): string {
    if s.read <= s.flushed <= |s.data| then s.data[s.read..s.flushed] else ""
  }

  /** One party takes its next operation, writing to `out` and reading from `inn`. */
  ghost predicate PartyStep(client: bool, messages: seq<string>, p: Party, out: Stream, inn: Stream,
                            p': Party, out': Stream, inn': Stream)
    requires |messages| == MESSAGES
  {
    && !p.aborted
    && match OpOf(client, p.pc)
      case Send(i) =>
        && i < MESSAGES && p' == p.(pc := p.pc + 1)
        && out' == out.(data := out.data + messages[i]) && inn' == inn
      case Flush => p' == p.(pc := p.pc + 1) && out' == out.(flushed := |out.data|) && inn' == inn
      case Receive(i) =>
        var r := Received(i == RAW, Available(inn));
        && CanReceive(i == RAW, Available(inn)) && out' == out && inn' == inn.(read := inn.read + |r|)
        && p' == if Expected(i == RAW, r) then p.(pc := p.pc + 1, got := p.got + [r]) else p.(aborted := true)
      case Finished => false
  }

  /** A full output buffer may let bytes through before the flush. */
  ghost predicate Leaks(s: Stream, s': Stream) {
    s.flushed < s'.flushed <= |s.data| && s' == s.(flushed := s'.flushed)
  }

  ghost predicate ClientSteps(m: Script, a: State, b: State)
    requires Fits(m.client)
  {
    && PartyStep(true, m.client, a.client, a.toServer, a.toClient, b.client, b.toServer, b.toClient)
    && b.server == a.server
  }

  ghost predicate ServerSteps(m: Script, a: State, b: State)
    requires Fits(m.server)
  {
    && PartyStep(false, m.server, a.server, a.toClient, a.toServer, b.server, b.toClient, b.toServer)
    && b.client == a.client
  }

  ghost predicate Step(m: Script, a: State, b: State)
    requires Fits(m.client) && Fits(m.server)
  {
    || ClientSteps(m, a, b)
    || ServerSteps(m, a, b)
    || (Leaks(a.toServer, b.toServer) && b == a.(toServer := b.toServer))
    || (Leaks(a.toClient, b.toClient) && b == a.(toClient := b.toClient))
  }

  const START := State(Party(0, [], false), Party(0, [], false), Stream("", 0, 0), Stream("", 0, 0))

  // ---- how far a party has come ----

  function Sent(client: bool, pc: nat): nat {
    if client then
      (if pc < 6 then pc else if pc < 13 then 6 else if pc < 16 then pc - 7 else if pc < 21 then 9 else 10)
    else
      (if pc < 6 then 0 else if pc < 12 then pc - 6 else if pc < 16 then 6
       else if pc < 19 then pc - 10 else if pc < 22 then 9 else 10)
  }

  function Flushed(client: bool, pc: nat): nat {
    if client then (if pc < 7 then 0 else if pc < 17 then 6 else if pc < 22 then 9 else 10)
    else (if pc < 13 then 0 else if pc < 20 then 6 else if pc < 23 then 9 else 10)
  }

  function Taken(client: bool, pc: nat): nat {
    if client then
      (if pc < 7 then 0 else if pc < 13 then pc - 7 else if pc < 17 then 6
       else if pc < 20 then pc - 11 else if pc < 23 then 9 else 10)
    else
      (if pc < 6 then pc else if pc < 13 then 6 else if pc < 16 then pc - 7 else if pc < 21 then 9 else 10)
  }

  ghost function Concat(messages: seq<string>, n: nat): string
    requires n <= |messages|
  {
    if n == 0 then "" else Concat(messages, n - 1) + messages[n - 1]
  }

  /** A stream that carries the first `sent` messages, `taken` of which have been read, at least `flushed` delivered. */
  ghost predicate Carries(s: Stream, messages: seq<string>, sent: nat, flushed: nat, taken: nat)
    requires |messages| == MESSAGES && sent <= MESSAGES && flushed <= MESSAGES && taken <= MESSAGES
  {
    && s.data == Concat(messages, sent)
    && s.read == |Concat(messages, taken)| <= s.flushed <= |s.data|
    && |Concat(messages, flushed)| <= s.flushed
    && taken <= sent
  }

  ghost predicate Has(p: Party, client: bool, peer: seq<string>)
    requires |peer| == MESSAGES
  {
    !p.aborted && p.pc <= END && p.got == peer[..Taken(client, p.pc)]
  }

  /** What every reachable state satisfies: each party has received exactly the first messages its peer sent. */
  ghost predicate Inv(m: Script, s: State)
    requires Fits(m.client) && Fits(m.server)
  {
    && Has(s.client, true, m.server) && Has(s.server, false, m.client)
    && Carries(s.toServer, m.client, Sent(true, s.client.pc), Flushed(true, s.client.pc), Taken(false, s.server.pc))
    && Carries(s.toClient, m.server, Sent(false, s.server.pc), Flushed(false, s.server.pc), Taken(true, s.client.pc))
  }

  lemma {:induction false} ConcatGrows(messages: seq<string>, a: nat, b: nat)
    requires a <= b <= |messages|
    ensures |Concat(messages, a)| <= |Concat(messages, b)|
    ensures Concat(messages, b)[..|Concat(messages, a)|] == Concat(messages, a)
    decreases b
  {
    if a == b {
    } else {
      ConcatGrows(messages, a, b - 1);
      assert Concat(messages, b)[..|Concat(messages, a)|] == Concat(messages, b - 1)[..|Concat(messages, a)|];
    }
  }

  lemma {:induction false} LineEndIs(s: string, n: nat, e: nat)
    requires n <= e < |s| && s[e] == '\n' && forall i :: n <= i < e ==> s[i] != '\n'
    ensures LineEnd(s, n) == e + 1
    decreases e - n
  {
    if n == e {
    } else {
      LineEndIs(s, n + 1, e);
    }
  }

  /** `BIO_gets` returns the whole line exactly when it fits the buffer with its terminator. */
  lemma GetsLineIff(line: string, rest: string, size: nat)
    requires IsLine(line) && size > 0
    ensures Gets(line + rest, size) == line <==> |line| < size
  {
    var s := line + rest;
    var e := |line| - 1;
    assert forall i :: 0 <= i < e ==> s[i] == line[..e][i];
    LineEndIs(s, 0, e);
    assert s[..|line|] == line;
    if |line| >= size { assert |Gets(s, size)| == size - 1; }
  }

  /** How long a line may be, and how many bytes of the hash are waited for. */
  lemma Sizes(line: string, rest: string)
    requires IsLine(line)
    ensures Received(false, line + rest) == line <==> |line| < 10240
    ensures CanReceive(true, rest) <==> |rest| >= 20
  {
    GetsLineIff(line, rest, LINE_SIZE);
  }

  lemma Window(data: string, before: string, part: string, end: nat)
    requires |before| <= end <= |data| && |before| + |part| <= |data|
    requires data[..|before| + |part|] == before + part
    ensures end - |before| >= |part| ==> data[|before|..end] == part + data[|before|..end][|part|..]
    ensures end - |before| < |part| ==> data[|before|..end] == part[..end - |before|]
  {
    var both := data[..|before| + |part|];
    forall i | 0 <= i < |part| ensures data[|before| + i] == part[i] { assert both[|before| + i] == part[i]; }
  }

  /** What is available starts with message `t`, cut off if it has not been delivered completely. */
  lemma AvailableIs(s: Stream, messages: seq<string>, sent: nat, flushed: nat, t: nat)
    requires |messages| == MESSAGES && sent <= MESSAGES && flushed <= MESSAGES && t < MESSAGES
    requires Carries(s, messages, sent, flushed, t)
    ensures s.flushed - s.read < |messages[t]| ==> t >= flushed
    ensures sent <= t ==> Available(s) == ""
    ensures t < sent && s.flushed - s.read >= |messages[t]| ==>
      Available(s) == messages[t] + Available(s)[|messages[t]|..]
    ensures t < sent && s.flushed - s.read < |messages[t]| ==>
      Available(s) == messages[t][..s.flushed - s.read]
  {
    if t < flushed { ConcatGrows(messages, t + 1, flushed); }
    if t < sent {
      ConcatGrows(messages, t + 1, sent);
      Window(s.data, Concat(messages, t), messages[t], s.flushed);
    }
  }

  lemma LineTakesAll(line: string, avail: string)
    requires IsLine(line) && |line| < LINE_SIZE && |avail| < |line| && avail == line[..|avail|]
    ensures !CanReceive(false, avail)
  {
  }

  /** If a receive is enabled, it takes exactly the message due. */
  lemma ReceiveTakesMessage(s: Stream, messages: seq<string>, sent: nat, flushed: nat, t: nat)
    requires Fits(messages) && sent <= MESSAGES && flushed <= MESSAGES && t < MESSAGES
    requires Carries(s, messages, sent, flushed, t)
    ensures CanReceive(t == RAW, Available(s)) ==>
      && Received(t == RAW, Available(s)) == messages[t] && Expected(t == RAW, messages[t])
      && t < sent && s.flushed - s.read >= |messages[t]|
    ensures t < flushed && t < sent ==> CanReceive(t == RAW, Available(s))
  {
    AvailableIs(s, messages, sent, flushed, t);
    var a := Available(s);
    if t < sent {
      if s.flushed - s.read >= |messages[t]| {
        var rest := a[|messages[t]|..];
        if t == RAW {
          assert a[..HASH_LENGTH] == messages[t];
        } else {
          GetsLineIff(messages[t], rest, LINE_SIZE);
          assert a[|messages[t]| - 1] == '\n';
        }
      } else if t != RAW {
        LineTakesAll(messages[t], a);
      }
    }
  }

  lemma CarriesMore(s: Stream, messages: seq<string>, sent: nat, flushed: nat, t: nat)
    requires |messages| == MESSAGES && sent < MESSAGES && flushed <= MESSAGES && t <= MESSAGES
    requires Carries(s, messages, sent, flushed, t)
    ensures Carries(s.(data := s.data + messages[sent]), messages, sent + 1, flushed, t)
  {
  }

  lemma CarriesTaken(s: Stream, messages: seq<string>, sent: nat, flushed: nat, t: nat)
    requires Fits(messages) && sent <= MESSAGES && flushed <= MESSAGES && t < MESSAGES
    requires Carries(s, messages, sent, flushed, t) && t < sent && s.flushed - s.read >= |messages[t]|
    ensures Carries(s.(read := s.read + |messages[t]|), messages, sent, flushed, t + 1)
  {
  }

  lemma SendPositions(client: bool, pc: nat)
    requires pc < END && OpOf(client, pc).Send?
    ensures OpOf(client, pc).i == Sent(client, pc) < MESSAGES && Sent(client, pc + 1) == Sent(client, pc) + 1
    ensures Flushed(client, pc + 1) == Flushed(client, pc) && Taken(client, pc + 1) == Taken(client, pc)
  {
  }

  lemma ReceivePositions(client: bool, pc: nat)
    requires pc < END && OpOf(client, pc).Receive?
    ensures OpOf(client, pc).i == Taken(client, pc) < MESSAGES && Taken(client, pc + 1) == Taken(client, pc) + 1
    ensures Flushed(client, pc + 1) == Flushed(client, pc) && Sent(client, pc + 1) == Sent(client, pc)
  {
  }

  lemma FlushPositions(client: bool, pc: nat)
    requires pc < END && OpOf(client, pc).Flush?
    ensures Flushed(client, pc + 1) == Sent(client, pc) == Sent(client, pc + 1)
    ensures Taken(client, pc + 1) == Taken(client, pc)
  {
  }

  /** A step of one party keeps what it has received and both streams. */
  lemma PartyKeeps(client: bool, mine: seq<string>, peer: seq<string>, p: Party, out: Stream, inn: Stream,
                   p': Party, out': Stream, inn': Stream, peerSent: nat, peerFlushed: nat, peerTaken: nat)
    requires Fits(mine) && Fits(peer) && peerSent <= MESSAGES && peerFlushed <= MESSAGES && peerTaken <= MESSAGES
    requires Has(p, client, peer)
    requires Carries(out, mine, Sent(client, p.pc), Flushed(client, p.pc), peerTaken)
    requires Carries(inn, peer, peerSent, peerFlushed, Taken(client, p.pc))
    requires PartyStep(client, mine, p, out, inn, p', out', inn')
    ensures Has(p', client, peer) && p'.pc == p.pc + 1
    ensures Carries(out', mine, Sent(client, p'.pc), Flushed(client, p'.pc), peerTaken)
    ensures Carries(inn', peer, peerSent, peerFlushed, Taken(client, p'.pc))
  {
    var op := OpOf(client, p.pc);
    assert p.pc < END;
    if op.Send? {
      SendPositions(client, p.pc);
      CarriesMore(out, mine, op.i, Flushed(client, p.pc), peerTaken);
    } else if op.Flush? {
      FlushPositions(client, p.pc);
    } else {
      ReceivePositions(client, p.pc);
      PartyReceives(peer, p, inn, p', inn', op.i, peerSent, peerFlushed);
    }
  }

  lemma PartyReceives(peer: seq<string>, p: Party, inn: Stream, p': Party, inn': Stream, i: nat,
                      peerSent: nat, peerFlushed: nat)
    requires Fits(peer) && peerSent <= MESSAGES && peerFlushed <= MESSAGES && i < MESSAGES
    requires p.got == peer[..i] && Carries(inn, peer, peerSent, peerFlushed, i)
    requires CanReceive(i == RAW, Available(inn))
    requires var r := Received(i == RAW, Available(inn));
      inn' == inn.(read := inn.read + |r|) &&
      p' == if Expected(i == RAW, r) then p.(pc := p.pc + 1, got := p.got + [r]) else p.(aborted := true)
    ensures p' == p.(pc := p.pc + 1, got := peer[..i + 1])
    ensures Carries(inn', peer, peerSent, peerFlushed, i + 1)
  {
    ReceiveTakesMessage(inn, peer, peerSent, peerFlushed, i);
    CarriesTaken(inn, peer, peerSent, peerFlushed, i);
    assert peer[..i + 1] == peer[..i] + [peer[i]];
  }

  lemma StepKeeps(m: Script, a: State, b: State)
    requires Fits(m.client) && Fits(m.server) && Inv(m, a) && Step(m, a, b)
    ensures Inv(m, b)
  {
    if ClientSteps(m, a, b) {
      PartyKeeps(true, m.client, m.server, a.client, a.toServer, a.toClient, b.client, b.toServer, b.toClient,
                 Sent(false, a.server.pc), Flushed(false, a.server.pc), Taken(false, a.server.pc));
    } else if ServerSteps(m, a, b) {
      PartyKeeps(false, m.server, m.client, a.server, a.toClient, a.toServer, b.server, b.toClient, b.toServer,
                 Sent(true, a.client.pc), Flushed(true, a.client.pc), Taken(true, a.client.pc));
    }
  }

  /** A run: a sequence of states that starts at the beginning and follows the steps of either party in any order. */
  ghost predicate IsRun(m: Script, run: seq<State>)
    requires Fits(m.client) && Fits(m.server)
  {
    run != [] && run[0] == START && forall i :: 0 <= i < |run| - 1 ==> Step(m, run[i], run[i + 1])
  }

  ghost predicate Done(s: State) {
    s.client.pc == END && s.server.pc == END
  }

  /** State `n` of any run. */
  lemma {:induction false} EveryRunKeeps(m: Script, run: seq<State>, n: nat)
    requires Fits(m.client) && Fits(m.server) && IsRun(m, run) && n < |run|
    ensures Inv(m, run[n])
  {
    if n == 0 {
    } else {
      EveryRunKeeps(m, run, n - 1);
      StepKeeps(m, run[n - 1], run[n]);
    }
  }

  lemma MessagesIn(messages: seq<string>, sent: nat, n: nat)
    requires Fits(messages) && sent <= MESSAGES && n <= MESSAGES
    ensures |Concat(messages, sent)| > |Concat(messages, n)| ==> sent > n
  {
    if sent <= n { ConcatGrows(messages, sent, n); }
  }

  /**
   * In every state of every run a side has written a byte of a step only after it has received all that this step
   * answers: the server of step 1 after the client's step 1, both of step 2 after the other's step 1, and so on.
   */
  lemma StepsWaitForPeer(m: Script, run: seq<State>, n: nat)
    requires Fits(m.client) && Fits(m.server) && IsRun(m, run) && n < |run|
    ensures var client, out := run[n].client, |run[n].toServer.data|;
      && (out > |Concat(m.client, 6)| ==> |client.got| >= 6)
      && (out > |Concat(m.client, 9)| ==> |client.got| >= 9)
    ensures var server, out := run[n].server, |run[n].toClient.data|;
      && (out > 0 ==> |server.got| >= 6)
      && (out > |Concat(m.server, 6)| ==> |server.got| >= 9)
      && (out > |Concat(m.server, 9)| ==> |server.got| >= 10)
  {
    EveryRunKeeps(m, run, n);
    var c, s := run[n].client.pc, run[n].server.pc;
    MessagesIn(m.client, Sent(true, c), 6);
    MessagesIn(m.client, Sent(true, c), 9);
    MessagesIn(m.server, Sent(false, s), 0);
    MessagesIn(m.server, Sent(false, s), 6);
    MessagesIn(m.server, Sent(false, s), 9);
  }

  /** A side that waits has nothing left in its buffer. */
  lemma NothingHeldBack(client: bool, pc: nat)
    requires OpOf(client, pc).Receive?
    ensures Flushed(client, pc) == Sent(client, pc)
  {
  }

  /** The party whose next operation is not a blocked receive can take it. */
  lemma PartyCanStep(client: bool, mine: seq<string>, peer: seq<string>, p: Party, out: Stream, inn: Stream,
                     peerSent: nat, peerFlushed: nat)
    returns (p': Party, out': Stream, inn': Stream)
    requires Fits(mine) && Fits(peer) && peerSent <= MESSAGES && peerFlushed <= peerSent
    requires Has(p, client, peer) && p.pc < END
    requires Carries(inn, peer, peerSent, peerFlushed, Taken(client, p.pc))
    requires OpOf(client, p.pc).Receive? ==> Taken(client, p.pc) < peerFlushed
    ensures PartyStep(client, mine, p, out, inn, p', out', inn')
  {
    match OpOf(client, p.pc)
    case Send(i) => p', out', inn' := p.(pc := p.pc + 1), out.(data := out.data + mine[i]), inn;
    case Flush => p', out', inn' := p.(pc := p.pc + 1), out.(flushed := |out.data|), inn;
    case Receive(i) =>
      assert i == Taken(client, p.pc);
      ReceiveTakesMessage(inn, peer, peerSent, peerFlushed, i);
      p', out', inn' := p.(pc := p.pc + 1, got := p.got + [peer[i]]), out, inn.(read := inn.read + |peer[i]|);
    case Finished =>
  }

  /** At any two positions that are not both the end, the client or the server is not waiting in vain. */
  lemma SomeoneCanStep(c: nat, s: nat)
    requires c <= END && s <= END && !(c == END && s == END)
    requires Taken(false, s) <= Sent(true, c) && Taken(true, c) <= Sent(false, s)
    ensures (c < END && (ClientOp(c).Receive? ==> Taken(true, c) < Flushed(false, s))) ||
            (s < END && (ServerOp(s).Receive? ==> Taken(false, s) < Flushed(true, c)))
  {
  }

  /** No reachable state is stuck before both sides have finished. */
  lemma NoDeadlock(m: Script, a: State) returns (b: State)
    requires Fits(m.client) && Fits(m.server) && Inv(m, a) && !Done(a)
    ensures Step(m, a, b)
  {
    b := a;
    var c, s := a.client.pc, a.server.pc;
    SomeoneCanStep(c, s);
    if c < END && (ClientOp(c).Receive? ==> Taken(true, c) < Flushed(false, s)) {
      var p, out, inn :=
        PartyCanStep(true, m.client, m.server, a.client, a.toServer, a.toClient, Sent(false, s), Flushed(false, s));
      b := State(p, a.server, out, inn);
    } else {
      var p, out, inn :=
        PartyCanStep(false, m.server, m.client, a.server, a.toClient, a.toServer, Sent(true, c), Flushed(true, c));
      b := State(a.client, p, inn, out);
    }
  }

  /** Every step makes progress, so no run goes on for ever. */
  lemma EveryStepProgresses(m: Script, a: State, b: State)
    requires Fits(m.client) && Fits(m.server) && Inv(m, a) && Step(m, a, b)
    ensures b.client.pc + b.server.pc <= 2 * END
    ensures b.client.pc + b.server.pc > a.client.pc + a.server.pc ||
      (b.client.pc + b.server.pc == a.client.pc + a.server.pc &&
       |b.toServer.data| == |a.toServer.data| && |b.toClient.data| == |a.toClient.data| &&
       a.toServer.flushed + a.toClient.flushed <
         b.toServer.flushed + b.toClient.flushed <= |a.toServer.data| + |a.toClient.data|)
  {
    StepKeeps(m, a, b);
  }

  /** When both have finished, each has received exactly what the other sent, and nothing is left in either stream. */
  lemma AtTheEnd(m: Script, run: seq<State>)
    requires Fits(m.client) && Fits(m.server) && IsRun(m, run) && Done(run[|run| - 1])
    ensures var s := run[|run| - 1];
      && s.client.got == m.server && s.server.got == m.client
      && s.toServer.read == s.toServer.flushed == |s.toServer.data|
      && s.toClient.read == s.toClient.flushed == |s.toClient.data|
  {
    EveryRunKeeps(m, run, |run| - 1);
    assert m.server[..MESSAGES] == m.server && m.client[..MESSAGES] == m.client;
  }
}
