// The command mailbox between the main processor (src/power.c, HP) and the low-power
// core (lp_core/main.c, LP): four shared words, each side one word access at a time,
// interleaved in any way.

module Mailbox {
  import opened Words

  const SAMPLE: u32 := 1
  const ENTER_SLEEP: u32 := 2
  const RESET_STATS: u32 := 3
  const HEADER: int := 0x4952_0000
  const ERROR_FLAG: int := 0x8000_0000

  predicate Known(op: u32) {
    1 <= op <= 3
  }

  /** What the LP core answers: the opcode itself, or the opcode with the error bit set. */
  function AckFor(op: u32): u32 {
    if Known(op) || op >= ERROR_FLAG then op else op + ERROR_FLAG
  }

  /** The telemetry word for a wake count: the header or-ed with the low 16 bits. */
  function Telemetry(wake: u32): u32 {
    HEADER + wake % 0x1_0000
  }

  /** A command as sent: its opcode, and the number of the send it belongs to. The number
      is bookkeeping: no step's choice depends on it. */
  datatype Command = Command(op: u32, id: nat)

  const NOTHING: Command := Command(0, 0)

  datatype Result = Ok | Timeout | Invalid

  /** Where power_send_cmd and power_sample_telemetry stand. */
  datatype Hp =
    | Idle
    | ClearAck(op: u32, budget: nat, sampling: bool)
    | SetCmd(op: u32, budget: nat, sampling: bool)
    | Poll(op: u32, budget: nat, sampling: bool)
    | ReadRaw

  /** Where the servicing loop stands; c is the command it fetched. */
  datatype Lp =
    | Fetch
    | BumpLoad(c: Command)
    | BumpStore(c: Command, wake: u32)
    | RawLoad(c: Command)
    | RawStore(c: Command, wake: u32)
    | ZeroWake(c: Command)
    | ZeroRaw(c: Command)
    | PostAck(c: Command)
    | ClearCmd(c: Command)

  /** The shared words, both sides, and a history: opcodes sent, whether the command word was
      clear when each send began, results of the finished sends, how many of those came
      before the first timeout, commands executed (or refused) by the LP core, the last
      telemetry reading. */
  datatype System = System(
    cmd: Command, ack: u32, wake: u32, raw: u32, hp: Hp, lp: Lp,
    sent: seq<u32>, clear: seq<bool>, results: seq<Result>, trusted: nat, log: seq<Command>, reading: u32)

  /** After power_mailbox_init, with the LP core in its loop. */
  const START: System := System(NOTHING, 0, 0, 0, Idle, Fetch, [], [], [], 0, [], 0)

  /** One access of the LP core. A command enters the log when it takes effect: a sample
      when the wake count is stored, a reset when it is zeroed, any other when answered. */
  function LpStep(s: System): System {
    match s.lp
    case Fetch =>
      var c := s.cmd;
      if c.op == 0 then s
      else if c.op == SAMPLE then s.(lp := BumpLoad(c))
      else if c.op == RESET_STATS then s.(lp := ZeroWake(c))
      else s.(lp := PostAck(c))
    case BumpLoad(c) => s.(lp := BumpStore(c, s.wake))
    case BumpStore(c, w) => s.(wake := Add32(w, 1), lp := RawLoad(c), log := s.log + [c])
    case RawLoad(c) => s.(lp := RawStore(c, s.wake))
    case RawStore(c, w) => s.(raw := Telemetry(w), lp := PostAck(c))
    case ZeroWake(c) => s.(wake := 0, lp := ZeroRaw(c), log := s.log + [c])
    case ZeroRaw(c) => s.(raw := 0, lp := PostAck(c))
    case PostAck(c) =>
      var log := if c.op == SAMPLE || c.op == RESET_STATS then s.log else s.log + [c];
      s.(ack := AckFor(c.op), lp := ClearCmd(c), log := log)
    case ClearCmd(_) => s.(cmd := NOTHING, lp := Fetch)
  }

  /** The send under way ends with r. */
  function Finish(s: System, r: Result, hp: Hp): System {
    s.(hp := hp, results := s.results + [r],
       trusted := if s.trusted == |s.results| && r != Timeout then s.trusted + 1 else s.trusted)
  }

  /** One access of the HP side, once a send is under way. */
  function HpStep(s: System): System {
    match s.hp
    case Idle => s
    case ClearAck(op, n, q) => s.(ack := 0, hp := SetCmd(op, n, q))
    case SetCmd(op, n, q) => s.(cmd := Command(op, |s.sent|), hp := Poll(op, n, q))
    case Poll(op, n, q) =>
      if n == 0 then Finish(s, Timeout, Idle)
      else if s.ack == op then Finish(s, Ok, if q then ReadRaw else Idle)
      else if s.ack >= ERROR_FLAG then Finish(s, Invalid, Idle)
      else s.(hp := Poll(op, n - 1, q))
    case ReadRaw => s.(hp := Idle, reading := s.raw)
  }

  /** power_send_cmd(op, budget) begins; with sampling, power_sample_telemetry does. */
  function Send(s: System, op: u32, budget: nat, sampling: bool): System {
    if s.hp.Idle? && op != 0 && (sampling ==> op == SAMPLE) then
      s.(hp := ClearAck(op, budget, sampling), sent := s.sent + [op], clear := s.clear + [s.cmd == NOTHING])
    else s
  }

  datatype Action = LpAccess | HpAccess | Begin(op: u32, budget: nat, sampling: bool)

  function Step(s: System, a: Action): System {
    match a
    case LpAccess => LpStep(s)
    case HpAccess => HpStep(s)
    case Begin(op, budget, sampling) => Send(s, op, budget, sampling)
  }

  function Run(s: System, actions: seq<Action>): System
    decreases |actions|
  {
    if actions == [] then s else Run(Step(s, actions[0]), actions[1..])
  }

  // ---- Counting samples --------------------------------------------------

  /** Samples executed since the last executed reset. */
  function Samples(log: seq<Command>): nat {
    if log == [] then 0
    else
      var n := |log| - 1;
      if log[n].op == RESET_STATS then 0
      else Samples(log[..n]) + if log[n].op == SAMPLE then 1 else 0
  }

  function RawFor(log: seq<Command>): u32 {
    if Samples(log) == 0 then 0 else HEADER + Samples(log) % 0x1_0000
  }

  lemma SamplesAppend(log: seq<Command>, c: Command)
    ensures Samples(log + [c]) ==
            if c.op == RESET_STATS then 0 else Samples(log) + if c.op == SAMPLE then 1 else 0
  {
    assert (log + [c])[..|log|] == log;
  }

  lemma TelemetryOfCount(n: nat)
    ensures Telemetry(Low32(n)) == HEADER + n % 0x1_0000
  {
    assert n % 0x1_0000 == (n % 0x1_0000_0000) % 0x1_0000;
  }

  // ---- The invariant -----------------------------------------------------

  /** The last command executed. */
  function Last(log: seq<Command>): Command {
    if log == [] then NOTHING else log[|log| - 1]
  }

  /** How many sends have reached the command word. */
  function Written(s: System): nat {
    if (s.hp.ClearAck? || s.hp.SetCmd?) && s.sent != [] then |s.sent| - 1 else |s.sent|
  }

  predicate IsSent(sent: seq<u32>, written: nat, c: Command) {
    1 <= c.id <= written && c.id <= |sent| && c.op == sent[c.id - 1] != 0
  }

  /** Executed commands are sent ones, in the order sent and none twice. */
  ghost predicate InOrder(sent: seq<u32>, written: nat, log: seq<Command>) {
    && (forall i :: 0 <= i < |log| ==> IsSent(sent, written, log[i]))
    && (forall i, j :: 0 <= i < j < |log| ==> log[i].id < log[j].id)
  }

  predicate BeforeEffect(lp: Lp) {
    || lp.BumpLoad? || lp.BumpStore? || lp.ZeroWake?
    || (lp.PostAck? && lp.c.op != SAMPLE && lp.c.op != RESET_STATS)
  }

  predicate LpShaped(lp: Lp, wake: u32) {
    match lp
    case Fetch => true
    case BumpLoad(c) => c.op == SAMPLE
    case BumpStore(c, w) => c.op == SAMPLE && w == wake
    case RawLoad(c) => c.op == SAMPLE
    case RawStore(c, w) => c.op == SAMPLE && w == wake
    case ZeroWake(c) => c.op == RESET_STATS
    case ZeroRaw(c) => c.op == RESET_STATS
    case PostAck(c) => true
    case ClearCmd(c) => true
  }

  /** What is pending in the command word or in the LP core's hands was sent and has not
      been executed yet. */
  ghost predicate PendingOk(cmd: Command, lp: Lp, sent: seq<u32>, written: nat, last: nat) {
    && (cmd != NOTHING ==> IsSent(sent, written, cmd))
    && (if lp.Fetch? then cmd == NOTHING || cmd.id > last
        else
          && IsSent(sent, written, lp.c) && (cmd == NOTHING || cmd.id >= lp.c.id)
          && if BeforeEffect(lp) then lp.c.id > last else lp.c.id == last)
  }

  /** The wake count is the number of samples since the last reset, and the telemetry word
      follows it except while the LP core is between the two stores. */
  ghost predicate CountsOk(wake: u32, raw: u32, lp: Lp, log: seq<Command>) {
    && wake == Low32(Samples(log))
    && (lp.RawLoad? || lp.RawStore? ==> Samples(log) > 0)
    && (lp.ZeroRaw? ==> Samples(log) == 0)
    && (raw == RawFor(log) || lp.RawLoad? || lp.RawStore? || lp.ZeroRaw?)
  }

  ghost predicate OrderOk(s: System) {
    && InOrder(s.sent, Written(s), s.log)
    && PendingOk(s.cmd, s.lp, s.sent, Written(s), Last(s.log).id)
  }

  ghost predicate HpShaped(s: System) {
    && |s.results| == |s.sent| - (if s.hp.Idle? || s.hp.ReadRaw? then 0 else 1)
    && (!s.hp.Idle? ==> s.sent != [] && s.sent[|s.sent| - 1] != 0)
    && (s.hp.ClearAck? || s.hp.SetCmd? || s.hp.Poll? ==>
          s.hp.op == s.sent[|s.sent| - 1] && (s.hp.sampling ==> s.hp.op == SAMPLE))
    && (s.hp.ReadRaw? ==> s.sent[|s.sent| - 1] == SAMPLE)
  }

  /** The LP core has nothing left to do but, at most, its final clear. */
  predicate Settled(s: System) {
    s.lp.ClearCmd? || (s.lp.Fetch? && s.cmd == NOTHING)
  }

  /** While no send has timed out the two sides move in step: between sends the last one
      sent is the last one executed, and an answer on the way is the answer to it. */
  ghost predicate InStep(s: System) {
    match s.hp
    case Poll(op, _, _) =>
      if s.ack != 0 then s.ack == AckFor(op) && Last(s.log).id == |s.sent| && Settled(s)
      else if s.lp.ClearCmd? then s.lp.c.id < |s.sent|
      else if s.lp.Fetch? then s.cmd == NOTHING || s.cmd == Command(op, |s.sent|)
      else s.lp.c == Command(op, |s.sent|)
    case SetCmd(_, _, _) => Settled(s) && Last(s.log).id == Written(s) && s.ack == 0
    case _ => Settled(s) && Last(s.log).id == Written(s)
  }

  /** Send number i + 1 is in the log. */
  ghost predicate Executed(s: System, i: nat)
    requires i < |s.sent|
  {
    Command(s.sent[i], i + 1) in s.log
  }

  /** Result number i + 1 is the LP core's verdict on an executed command. */
  ghost predicate Truthful(s: System, i: nat)
    requires i < |s.results| && i < |s.sent|
  {
    s.results[i] == (if AckFor(s.sent[i]) == s.sent[i] then Ok else Invalid) && Executed(s, i)
  }

  /** A result tells the truth if it came before any timeout, and also if the command word
      was clear when its send began and it is not itself a timeout. */
  ghost predicate ResultsOk(s: System) {
    && s.trusted <= |s.results| <= |s.sent| == |s.clear|
    && (forall i :: 0 <= i < s.trusted ==> Truthful(s, i))
    && (forall i :: 0 <= i < |s.results| && s.clear[i] && s.results[i] != Timeout ==> Truthful(s, i))
    && (s.trusted < |s.results| ==> s.results[s.trusted] == Timeout)
  }

  /** The command is executed, in the LP core's hands, or in the word for an LP core that is
      ready to fetch it. In the word it stays only until the HP side writes another there. */
  predicate Held(s: System, c: Command) {
    c in s.log || (s.lp.Fetch? && s.cmd == c) || (BeforeEffect(s.lp) && s.lp.c == c)
  }

  /** A send that began with the command word clear: no other command is on the way, and an
      answer is the answer to this one. */
  ghost predicate Clean(s: System, c: Command) {
    match s.hp
    case ClearAck(_, _, _) => s.lp.Fetch? && s.cmd == NOTHING
    case SetCmd(_, _, _) => s.lp.Fetch? && s.cmd == NOTHING && s.ack == 0
    case Poll(_, _, _) =>
      if s.ack != 0 then s.ack == AckFor(c.op) && c in s.log && Settled(s)
      else Held(s, c) && s.cmd == c && !s.lp.ClearCmd? && (!s.lp.Fetch? ==> s.lp.c == c)
    case ReadRaw => c in s.log && Settled(s)
    case Idle => Held(s, c)
  }

  ghost predicate CleanOk(s: System) {
    && |s.clear| == |s.sent|
    && (s.sent != [] && s.clear[|s.sent| - 1] ==> Clean(s, Command(s.sent[|s.sent| - 1], |s.sent|)))
  }

  ghost predicate Inv(s: System) {
    && LpShaped(s.lp, s.wake) && HpShaped(s) && CountsOk(s.wake, s.raw, s.lp, s.log) && ResultsOk(s)
    && OrderOk(s) && CleanOk(s)
    && (s.lp.Fetch? || s.cmd != NOTHING)
    && (s.trusted == |s.results| ==> InStep(s))
  }

  // ---- Every step keeps it -----------------------------------------------

  lemma LpKeepsCounts(s: System)
    requires LpShaped(s.lp, s.wake) && CountsOk(s.wake, s.raw, s.lp, s.log)
    ensures LpShaped(LpStep(s).lp, LpStep(s).wake)
    ensures CountsOk(LpStep(s).wake, LpStep(s).raw, LpStep(s).lp, LpStep(s).log)
  {
    var n := Samples(s.log);
    TelemetryOfCount(n);
    match s.lp {
      case BumpStore(c, _) => SamplesAppend(s.log, c); CountUp(n);
      case ZeroWake(c) => SamplesAppend(s.log, c);
      case PostAck(c) => SamplesAppend(s.log, c);
      case _ =>
    }
  }

  lemma InOrderAppend(sent: seq<u32>, written: nat, log: seq<Command>, c: Command)
    requires InOrder(sent, written, log) && IsSent(sent, written, c) && c.id > Last(log).id
    ensures InOrder(sent, written, log + [c])
  {
  }

  lemma InOrderGrows(sent: seq<u32>, written: nat, log: seq<Command>, sent': seq<u32>, written': nat)
    requires InOrder(sent, written, log) && sent <= sent' && written <= written'
    ensures InOrder(sent', written', log)
  {
    forall i | 0 <= i < |log| ensures IsSent(sent', written', log[i]) {
      assert IsSent(sent, written, log[i]);
    }
  }

  lemma LpKeepsLog(s: System)
    requires LpShaped(s.lp, s.wake) && OrderOk(s)
    ensures OrderOk(LpStep(s))
  {
    if LpStep(s).log != s.log {
      InOrderAppend(s.sent, Written(s), s.log, s.lp.c);
    }
  }

  lemma LpLeavesHpAlone(s: System)
    ensures LpStep(s).hp == s.hp && LpStep(s).sent == s.sent && LpStep(s).clear == s.clear
    ensures LpStep(s).results == s.results && LpStep(s).trusted == s.trusted
  {
  }

  lemma LpLogGrows(s: System)
    ensures s.log <= LpStep(s).log
  {
  }

  lemma LpKeepsInStep(s: System)
    requires LpShaped(s.lp, s.wake) && OrderOk(s) && InStep(s) && (!s.hp.Idle? ==> s.sent != [])
    ensures InStep(LpStep(s))
  {
  }

  lemma ResultsStay(s: System, t: System)
    requires ResultsOk(s)
    requires s.sent <= t.sent && t.results == s.results && t.trusted == s.trusted && s.log <= t.log
    requires s.clear <= t.clear && |t.clear| == |t.sent|
    ensures ResultsOk(t)
  {
    forall i | 0 <= i < |t.results| && Truthful(s, i) ensures Truthful(t, i) {
      assert Executed(s, i);
    }
  }

  lemma LpKeepsClean(s: System)
    requires CleanOk(s) && LpShaped(s.lp, s.wake) && HpShaped(s)
    requires s.lp.Fetch? || s.cmd != NOTHING
    ensures CleanOk(LpStep(s)) && (LpStep(s).lp.Fetch? || LpStep(s).cmd != NOTHING)
  {
  }

  lemma LpKeepsInv(s: System)
    requires Inv(s)
    ensures Inv(LpStep(s))
  {
    LpKeepsClean(s);
    LpKeepsCounts(s);
    LpKeepsLog(s);
    LpLogGrows(s);
    LpLeavesHpAlone(s);
    if s.trusted == |s.results| {
      LpKeepsInStep(s);
    }
    var t := LpStep(s);
    ResultsStay(s, t);
    assert HpShaped(t);
  }

  /** One more result that, if nothing timed out before, tells the truth. */
  lemma FinishKeepsResults(s: System, r: Result, hp: Hp)
    requires ResultsOk(s) && |s.results| < |s.sent|
    requires r == Timeout || (s.trusted < |s.results| && !s.clear[|s.results|])
             || (Executed(s, |s.results|)
                 && r == if AckFor(s.sent[|s.results|]) == s.sent[|s.results|] then Ok else Invalid)
    ensures ResultsOk(Finish(s, r, hp))
  {
    var t := Finish(s, r, hp);
    forall i | 0 <= i < |s.results| && Truthful(s, i) ensures Truthful(t, i) {
      assert Executed(s, i);
    }
    assert Executed(s, |s.results|) ==> Executed(t, |s.results|);
  }

  /** An answer seen while nothing has timed out, or in a send that began with the command
      word clear, is the answer to the command just sent. */
  lemma AnswerIsOurs(s: System)
    requires Inv(s) && s.hp.Poll? && s.ack != 0 && (s.trusted == |s.results| || s.clear[|s.results|])
    ensures s.ack == AckFor(s.hp.op) && Executed(s, |s.results|)
  {
    assert IsSent(s.sent, Written(s), s.log[|s.log| - 1]);
  }

  /** Ending a send, truthfully unless it timed out. */
  lemma FinishKeepsInv(s: System, r: Result, hp: Hp)
    requires Inv(s) && s.hp.Poll? && (hp == Idle || (hp == ReadRaw && s.hp.op == SAMPLE))
    requires if r == Timeout then hp == Idle else s.ack != 0 && r == if s.ack == s.hp.op then Ok else Invalid
    ensures Inv(Finish(s, r, hp))
  {
    if (s.trusted == |s.results| || s.clear[|s.results|]) && r != Timeout {
      AnswerIsOurs(s);
    }
    FinishKeepsResults(s, r, hp);
  }

  lemma PollAgainKeepsInv(s: System)
    requires Inv(s) && s.hp.Poll? && s.hp.budget > 0 && s.ack != s.hp.op && s.ack < ERROR_FLAG
    ensures Inv(HpStep(s))
  {
    var t := HpStep(s);
    ResultsStay(s, t);
    if s.trusted == |s.results| && s.ack != 0 {
      AnswerIsOurs(s);
    }
  }

  lemma PollKeepsInv(s: System)
    requires Inv(s) && s.hp.Poll?
    ensures Inv(HpStep(s))
  {
    PollsNonzero(s);
    hide Inv;
    if s.hp.budget == 0 {
      FinishKeepsInv(s, Timeout, Idle);
    } else if s.ack == s.hp.op {
      FinishKeepsInv(s, Ok, if s.hp.sampling then ReadRaw else Idle);
    } else if s.ack >= ERROR_FLAG {
      FinishKeepsInv(s, Invalid, Idle);
    } else {
      PollAgainKeepsInv(s);
    }
  }

  lemma PollsNonzero(s: System)
    requires Inv(s) && s.hp.Poll?
    ensures s.hp.op != 0 && (s.hp.sampling ==> s.hp.op == SAMPLE)
  {
  }

  lemma SetCmdKeepsInv(s: System)
    requires Inv(s) && s.hp.SetCmd?
    ensures Inv(HpStep(s))
  {
    assert Last(s.log).id <= Written(s);
    hide InOrder, ResultsOk, CountsOk;
    var t := HpStep(s);
    InOrderGrows(s.sent, Written(s), s.log, t.sent, Written(t));
    ResultsStay(s, t);
  }

  lemma HpKeepsInv(s: System)
    requires Inv(s)
    ensures Inv(HpStep(s))
  {
    match s.hp {
      case SetCmd(_, _, _) => SetCmdKeepsInv(s);
      case Poll(_, _, _) => PollKeepsInv(s);
      case _ => ResultsStay(s, HpStep(s));
    }
  }

  lemma SendKeepsInv(s: System, op: u32, budget: nat, sampling: bool)
    requires Inv(s)
    ensures Inv(Send(s, op, budget, sampling))
  {
    var t := Send(s, op, budget, sampling);
    InOrderGrows(s.sent, Written(s), s.log, t.sent, Written(t));
    ResultsStay(s, t);
  }

  lemma {:induction false} EveryRunKeepsInv(s: System, actions: seq<Action>)
    requires Inv(s)
    ensures Inv(Run(s, actions))
    decreases |actions|
  {
    if actions != [] {
      match actions[0] {
        case LpAccess => LpKeepsInv(s);
        case HpAccess => HpKeepsInv(s);
        case Begin(op, budget, sampling) => SendKeepsInv(s, op, budget, sampling);
      }
      EveryRunKeepsInv(Step(s, actions[0]), actions[1..]);
    }
  }

  // ---- What the callers get ----------------------------------------------

  lemma StartInv()
    ensures Inv(START)
  {
  }

  /** Only sent commands are executed. */
  lemma LogIsSent(actions: seq<Action>, i: nat)
    requires i < |Run(START, actions).log|
    ensures var s := Run(START, actions);
            1 <= s.log[i].id <= |s.sent| && s.log[i].op == s.sent[s.log[i].id - 1]
  {
    EveryRunKeepsInv(START, actions);
    var s := Run(START, actions);
    assert IsSent(s.sent, Written(s), s.log[i]);
  }

  /** Under every interleaving no command is executed twice, and commands execute in the
      order they were sent. */
  lemma AtMostOnce(actions: seq<Action>, i: nat, j: nat)
    requires i < j < |Run(START, actions).log|
    ensures Run(START, actions).log[i].id < Run(START, actions).log[j].id
  {
    EveryRunKeepsInv(START, actions);
  }

  /** A result that is no timeout is true if nothing timed out before it, or if the command
      word was clear when its send began: the command was executed, once, and OK is reported
      exactly for the three known opcodes and, because the error bit is then already set, for
      every opcode with bit 31. */
  lemma ResultMeansExecutedOnce(actions: seq<Action>, i: nat)
    requires var s := Run(START, actions);
             && i < |s.results| && s.results[i] != Timeout
             && (Timeout !in s.results[..i] || (i < |s.clear| && s.clear[i]))
    ensures var s := Run(START, actions);
            && i < |s.sent| && (s.results[i] == Ok <==> Known(s.sent[i]) || s.sent[i] >= ERROR_FLAG)
            && (exists k :: 0 <= k < |s.log| && s.log[k] == Command(s.sent[i], i + 1))
            && (forall k, l :: 0 <= k < |s.log| && 0 <= l < |s.log| && s.log[k].id == s.log[l].id == i + 1 ==> k == l)
  {
    StartInv();
    EveryRunKeepsInv(START, actions);
    var s := Run(START, actions);
    if s.trusted < i {
      assert s.results[..i][s.trusted] == Timeout;
    }
    assert Truthful(s, i) && Executed(s, i);
  }

  /** A sample that succeeds, with no timeout before or a clear command word when it began,
      reads the header with the low 16 bits of the number of samples executed since the last
      reset, its own included. */
  lemma SampleReadsCount(actions: seq<Action>)
    requires var s := Run(START, actions);
             s.hp.ReadRaw? && (Timeout !in s.results || (s.clear != [] && s.clear[|s.clear| - 1]))
    ensures var s := Run(START, actions);
            && HpStep(s).reading == HEADER + Samples(s.log) % 0x1_0000
            && Samples(s.log) > 0 && Last(s.log) == Command(SAMPLE, |s.sent|)
            && s.wake == Low32(Samples(s.log))
  {
    StartInv();
    EveryRunKeepsInv(START, actions);
    var s := Run(START, actions);
    if s.clear[|s.clear| - 1] {
      NewestIsLast(s, Command(SAMPLE, |s.sent|));
    }
    assert IsSent(s.sent, Written(s), s.log[|s.log| - 1]);
  }

  lemma NewestIsLast(s: System, c: Command)
    requires OrderOk(s) && c in s.log && c.id == |s.sent|
    ensures Last(s.log) == c
  {
    var k :| 0 <= k < |s.log| && s.log[k] == c;
    assert IsSent(s.sent, Written(s), s.log[|s.log| - 1]);
  }

  // ---- When a send is safe -----------------------------------------------

  /** The command of a send from s. */
  function Next(s: System, op: u32): Command {
    Command(op, |s.sent| + 1)
  }

  /** How a send from s ended in t: with the LP core's verdict on its command, executed; or
      with a timeout, its command held. No command that was held before is lost over it. */
  ghost predicate EndsSafely(s: System, t: System, op: u32) {
    && |t.results| == |s.sent| + 1
    && (var r := t.results[|s.sent|];
        if r == Timeout then Held(t, Next(s, op))
        else Next(s, op) in t.log && (r == Ok <==> AckFor(op) == op))
    && LosesNone(s, t)
  }

  ghost predicate LosesNone(s: System, t: System) {
    forall c: Command :: c.op != 0 && Held(s, c) ==> Held(t, c)
  }

  predicate NoSend(actions: seq<Action>) {
    forall a :: a in actions ==> !a.Begin?
  }

  /** Every send of op from s ends safely, for every poll budget and every interleaving. */
  ghost predicate AlwaysSafe(s: System, op: u32) {
    forall budget: nat, sampling: bool, during: seq<Action> ::
      (sampling ==> op == SAMPLE) && NoSend(during) && Run(Send(s, op, budget, sampling), during).hp.Idle? ==>
        EndsSafely(s, Run(Send(s, op, budget, sampling), during), op)
  }

  lemma {:induction false} AccessesKeepSends(s: System, actions: seq<Action>)
    requires NoSend(actions)
    ensures Run(s, actions).sent == s.sent && Run(s, actions).clear == s.clear
    decreases |actions|
  {
    if actions != [] {
      assert actions[0] in actions && forall a :: a in actions[1..] ==> a in actions;
      AccessesKeepSends(Step(s, actions[0]), actions[1..]);
    }
  }

  lemma ClearSendEndsSafely(s: System, op: u32, budget: nat, sampling: bool, during: seq<Action>)
    requires Inv(s) && s.hp.Idle? && s.cmd == NOTHING && op != 0 && (sampling ==> op == SAMPLE) && NoSend(during)
    requires Run(Send(s, op, budget, sampling), during).hp.Idle?
    ensures EndsSafely(s, Run(Send(s, op, budget, sampling), during), op)
  {
    var begun := Send(s, op, budget, sampling);
    SendKeepsInv(s, op, budget, sampling);
    AccessesKeepSends(begun, during);
    EveryRunKeepsInv(begun, during);
    RunLogGrows(begun, during);
    var t := Run(begun, during);
    assert t.results[|s.sent|] != Timeout ==> Truthful(t, |s.sent|) && Executed(t, |s.sent|);
    forall c: Command | c.op != 0 && Held(s, c) ensures Held(t, c) {
      ClearMeansExecuted(s, c);
    }
  }

  /** With the word clear there is nothing between the two sides: what was held is executed. */
  lemma ClearMeansExecuted(s: System, c: Command)
    requires Inv(s) && s.cmd == NOTHING && Held(s, c) && c != NOTHING
    ensures c in s.log
  {
  }

  lemma {:induction false} RunLogGrows(s: System, actions: seq<Action>)
    ensures s.log <= Run(s, actions).log
    decreases |actions|
  {
    if actions != [] {
      LpLogGrows(s);
      RunLogGrows(Step(s, actions[0]), actions[1..]);
    }
    hide LpStep;
  }

  /** Accesses of the LP core up to its final clear. */
  function LeftToClear(s: System): nat {
    match s.lp
    case Fetch => 6
    case BumpLoad(_) => 5
    case BumpStore(_, _) => 4
    case RawLoad(_) => 3
    case RawStore(_, _) => 2
    case ZeroWake(_) => 3
    case ZeroRaw(_) => 2
    case PostAck(_) => 1
    case ClearCmd(_) => 0
  }

  /** The LP core alone, from a pending command to the brink of clearing the word. */
  lemma {:induction false} LpReachesClear(s: System) returns (steps: seq<Action>)
    requires Inv(s) && s.cmd != NOTHING
    ensures NoSend(steps)
    ensures var t := Run(s, steps);
            Inv(t) && t.lp.ClearCmd? && t.hp == s.hp && t.sent == s.sent && t.results == s.results
    decreases LeftToClear(s)
  {
    if s.lp.ClearCmd? {
      steps := [];
    } else {
      LpKeepsInv(s);
      LpLeavesHpAlone(s);
      PendingIsCommand(s);
      var rest := LpReachesClear(LpStep(s));
      steps := [LpAccess] + rest;
      assert steps[1..] == rest;
    }
  }

  lemma PendingIsCommand(s: System)
    requires Inv(s) && s.cmd != NOTHING && !s.lp.ClearCmd?
    ensures LpStep(s).cmd != NOTHING && LeftToClear(LpStep(s)) < LeftToClear(s)
  {
  }

  /** A send that begins with a command still in the word: the LP core finishes with that
      one, the new command is written, and the final clear erases it. */
  lemma UnclearSendCanBeLost(s: System, op: u32) returns (during: seq<Action>)
    requires Inv(s) && s.hp.Idle? && s.cmd != NOTHING && op != 0
    ensures NoSend(during) && Run(Send(s, op, 0, false), during).hp.Idle?
    ensures !EndsSafely(s, Run(Send(s, op, 0, false), during), op)
  {
    var begun := Send(s, op, 0, false);
    SendKeepsInv(s, op, 0, false);
    var steps := LpReachesClear(begun);
    var t := Run(begun, steps);
    var tail := [HpAccess, HpAccess, LpAccess, HpAccess];
    RunUnfolds4(t, tail);
    RunConcat(begun, steps, tail);
    during := steps + tail;
    LostForGood(s, t, op);
  }

  lemma LostForGood(s: System, t: System, op: u32)
    requires Inv(t) && t.hp == ClearAck(op, 0, false) && t.lp.ClearCmd?
    requires t.sent == s.sent + [op] && |t.results| == |s.sent|
    ensures var u := HpStep(LpStep(HpStep(HpStep(t))));
            && u.hp.Idle? && u.results == t.results + [Timeout] && !Held(u, Next(s, op))
  {
  }

  /** Exactly when the command word is clear as a send begins, nothing that happened before,
      no poll budget and no interleaving can make its result false or lose, up to its end, its
      own command or an earlier one. */
  lemma SendIsSafeIff(actions: seq<Action>, op: u32)
    requires Run(START, actions).hp.Idle? && op != 0
    ensures AlwaysSafe(Run(START, actions), op) <==> Run(START, actions).cmd == NOTHING
  {
    StartInv();
    EveryRunKeepsInv(START, actions);
    var s := Run(START, actions);
    hide Inv, Run, Send, EndsSafely, NoSend;
    if s.cmd == NOTHING {
      forall budget: nat, sampling: bool, during: seq<Action> |
        (sampling ==> op == SAMPLE) && NoSend(during) && Run(Send(s, op, budget, sampling), during).hp.Idle?
        ensures EndsSafely(s, Run(Send(s, op, budget, sampling), during), op)
      {
        ClearSendEndsSafely(s, op, budget, sampling, during);
      }
    } else {
      var during := UnclearSendCanBeLost(s, op);
      assert (false ==> op == SAMPLE) && NoSend(during) && Run(Send(s, op, 0, false), during).hp.Idle?;
    }
  }

  /** The HP side is not about to write the command word. */
  predicate WordWritten(s: System) {
    s.hp.Idle? || s.hp.Poll? || s.hp.ReadRaw?
  }

  /** Accesses of the LP core until a held command has executed. */
  function Due(s: System, c: Command): nat {
    if c in s.log then 0
    else match s.lp
      case Fetch => 3
      case BumpLoad(_) => 2
      case _ => 1
  }

  lemma AccessKeepsHeld(s: System, a: Action, c: Command)
    requires Held(s, c) && WordWritten(s) && !a.Begin? && c.op != 0
    ensures Held(Step(s, a), c) && WordWritten(Step(s, a))
    ensures Due(Step(s, a), c) <= if a.LpAccess? && Due(s, c) > 0 then Due(s, c) - 1 else Due(s, c)
  {
  }

  function LpAccesses(actions: seq<Action>): nat {
    if actions == [] then 0 else (if actions[0].LpAccess? then 1 else 0) + LpAccesses(actions[1..])
  }

  lemma {:induction false} HeldGetsDone(s: System, c: Command, actions: seq<Action>)
    requires Held(s, c) && WordWritten(s) && NoSend(actions) && c.op != 0
    ensures Held(Run(s, actions), c) && (LpAccesses(actions) >= Due(s, c) ==> c in Run(s, actions).log)
    decreases |actions|
  {
    if actions != [] {
      assert actions[0] in actions && forall a :: a in actions[1..] ==> a in actions;
      AccessKeepsHeld(s, actions[0], c);
      HeldGetsDone(Step(s, actions[0]), c, actions[1..]);
    }
    hide Step, Held;
  }

  /** Once a command is written, it stays held under every interleaving until the next send
      begins, and is executed as soon as the LP core has made three accesses. */
  lemma HeldIsExecuted(s: System, c: Command, actions: seq<Action>)
    requires Held(s, c) && WordWritten(s) && NoSend(actions) && c.op != 0
    ensures Held(Run(s, actions), c)
    ensures LpAccesses(actions) >= 3 ==> c in Run(s, actions).log
  {
    HeldGetsDone(s, c, actions);
  }

  // ---- When a send times out ---------------------------------------------

  function HpAccesses(actions: seq<Action>): nat {
    if actions == [] then 0 else (if actions[0].HpAccess? then 1 else 0) + HpAccesses(actions[1..])
  }

  /** LP accesses before HP access number k, or all of them if there are fewer HP accesses. */
  function LpBefore(actions: seq<Action>, k: nat): nat
    decreases |actions|
  {
    if actions == [] then 0
    else match actions[0]
      case LpAccess => 1 + LpBefore(actions[1..], k)
      case HpAccess => if k == 0 then 0 else LpBefore(actions[1..], k - 1)
      case Begin(_, _, _) => LpBefore(actions[1..], k)
  }

  /** The first acknowledge word with opcode op or the error bit that n HP accesses in a row
      find, from HP access number from on. */
  function FirstAnswer(s: System, actions: seq<Action>, op: u32, from: nat, n: nat): Option<u32>
    decreases |actions|
  {
    if actions == [] || n == 0 then None
    else
      var t, rest := Step(s, actions[0]), actions[1..];
      if !actions[0].HpAccess? then FirstAnswer(t, rest, op, from, n)
      else if from > 0 then FirstAnswer(t, rest, op, from - 1, n)
      else if s.ack == op || s.ack >= ERROR_FLAG then Some(s.ack)
      else FirstAnswer(t, rest, op, 0, n - 1)
  }

  function ResultOf(answer: Option<u32>, op: u32): Result {
    if answer.None? then Timeout else if answer.value == op then Ok else Invalid
  }

  /** A send for which the acknowledge word is read up to n times from HP access number from on
      has ended exactly if an answer was read, or after all n reads; and what was read first is
      its result, a timeout only if all n reads found no answer. */
  ghost predicate EndsAsRead(s: System, actions: seq<Action>, op: u32, from: nat, n: nat, results: seq<Result>) {
    var answer := FirstAnswer(s, actions, op, from, n);
    results == s.results + if answer.Some? || HpAccesses(actions) > from + n then [ResultOf(answer, op)] else []
  }

  lemma {:induction false} OverStaysOver(s: System, actions: seq<Action>)
    requires NoSend(actions) && (s.hp.Idle? || s.hp.ReadRaw?)
    ensures Run(s, actions).results == s.results
    decreases |actions|
  {
    if actions != [] {
      assert actions[0] in actions && forall a :: a in actions[1..] ==> a in actions;
      LpLeavesHpAlone(s);
      OverStaysOver(Step(s, actions[0]), actions[1..]);
    }
    hide LpStep;
  }

  lemma {:induction false} PollEndsAsRead(s: System, actions: seq<Action>)
    requires s.hp.Poll? && NoSend(actions)
    ensures EndsAsRead(s, actions, s.hp.op, 0, s.hp.budget, Run(s, actions).results)
    decreases |actions|
  {
    if actions != [] {
      assert actions[0] in actions && forall a :: a in actions[1..] ==> a in actions;
      LpLeavesHpAlone(s);
      var t := Step(s, actions[0]);
      if t.hp.Poll? {
        PollEndsAsRead(t, actions[1..]);
      } else {
        OverStaysOver(t, actions[1..]);
      }
    }
    hide LpStep;
  }

  lemma {:induction false} PostEndsAsRead(s: System, actions: seq<Action>)
    requires (s.hp.ClearAck? || s.hp.SetCmd? || s.hp.Poll?) && NoSend(actions)
    ensures var from := if s.hp.ClearAck? then 2 else if s.hp.SetCmd? then 1 else 0;
            EndsAsRead(s, actions, s.hp.op, from, s.hp.budget, Run(s, actions).results)
    decreases |actions|
  {
    if s.hp.Poll? {
      PollEndsAsRead(s, actions);
    } else if actions != [] {
      assert actions[0] in actions && forall a :: a in actions[1..] ==> a in actions;
      LpLeavesHpAlone(s);
      PostEndsAsRead(Step(s, actions[0]), actions[1..]);
    }
    hide LpStep;
  }

  /** Of every send, for every timeout n and every interleaving: two HP accesses clear the
      acknowledge word and write the command, and up to n read the acknowledge word. The send
      times out exactly if all n found neither op nor the error bit; otherwise the first that
      did is its result. */
  lemma SendEndsAsRead(s: System, op: u32, n: nat, sampling: bool, during: seq<Action>)
    requires s.hp.Idle? && op != 0 && (sampling ==> op == SAMPLE) && NoSend(during)
    ensures var begun := Send(s, op, n, sampling);
            EndsAsRead(begun, during, op, 2, n, Run(begun, during).results)
  {
    PostEndsAsRead(Send(s, op, n, sampling), during);
    hide Run, EndsAsRead;
  }

  /** LP accesses until a command in the word has its answer. */
  function LeftToAnswer(s: System): nat {
    if s.ack != 0 then 0
    else match s.lp
      case Fetch => 6
      case BumpLoad(_) => 5
      case BumpStore(_, _) => 4
      case RawLoad(_) => 3
      case RawStore(_, _) => 2
      case ZeroWake(_) => 3
      case ZeroRaw(_) => 2
      case PostAck(_) => 1
      case ClearCmd(_) => 0
  }

  function Verdict(op: u32): Result {
    if Known(op) || op >= ERROR_FLAG then Ok else Invalid
  }

  /** A send that began clear waits for its answer, and the LP core is on the way to it. */
  ghost predicate Awaits(s: System) {
    s.hp.Poll? && Inv(s) && s.clear[|s.results|]
  }

  lemma LpComesCloser(s: System)
    requires Awaits(s)
    ensures Awaits(LpStep(s)) && LpStep(s).hp == s.hp
    ensures LeftToAnswer(LpStep(s)) <= if LeftToAnswer(s) > 0 then LeftToAnswer(s) - 1 else 0
  {
    LpKeepsInv(s);
    LpLeavesHpAlone(s);
  }

  lemma PollReads(s: System)
    requires Awaits(s) && s.hp.budget > 0
    ensures var t := HpStep(s);
            if s.ack != 0 then
              t.results == s.results + [Verdict(s.hp.op)] && (t.hp.Idle? || t.hp.ReadRaw?)
            else
              Awaits(t) && t.results == s.results && LeftToAnswer(t) == LeftToAnswer(s) > 0
              && t.hp == Poll(s.hp.op, s.hp.budget - 1, s.hp.sampling)
  {
    HpKeepsInv(s);
    if s.ack != 0 {
      AnswerIsOurs(s);
    }
    PollsNonzero(s);
  }

  lemma {:induction false} PollIsAnswered(s: System, actions: seq<Action>)
    requires Awaits(s) && s.hp.budget > 0 && NoSend(actions)
    requires LpBefore(actions, s.hp.budget - 1) >= LeftToAnswer(s)
    ensures var results := Run(s, actions).results;
            && (results == s.results || results == s.results + [Verdict(s.hp.op)])
            && (HpAccesses(actions) >= s.hp.budget ==> results != s.results)
    decreases |actions|
  {
    hide Inv, LpStep, HpStep, Verdict, LeftToAnswer;
    if actions != [] {
      assert actions[0] in actions && forall a :: a in actions[1..] ==> a in actions;
      var t := Step(s, actions[0]);
      if actions[0].LpAccess? {
        LpComesCloser(s);
        LpLeavesHpAlone(s);
        PollIsAnswered(t, actions[1..]);
      } else {
        PollReads(s);
        if s.ack != 0 {
          OverStaysOver(t, actions[1..]);
        } else {
          PollIsAnswered(t, actions[1..]);
        }
      }
    }
  }

  lemma {:induction false} PostIsAnswered(s: System, actions: seq<Action>)
    requires Inv(s) && (s.hp.ClearAck? || s.hp.SetCmd?) && s.hp.budget > 0 && s.clear[|s.results|] && NoSend(actions)
    requires var from := if s.hp.ClearAck? then 2 else 1;
             LpBefore(actions, from - 1 + s.hp.budget) >= LpBefore(actions, from - 1) + 6
    ensures var from := if s.hp.ClearAck? then 2 else 1;
            var results := Run(s, actions).results;
            && (results == s.results || results == s.results + [Verdict(s.hp.op)])
            && (HpAccesses(actions) >= from + s.hp.budget ==> results != s.results)
    decreases |actions|
  {
    hide Inv, LpStep, Verdict;
    if actions != [] {
      assert actions[0] in actions && forall a :: a in actions[1..] ==> a in actions;
      StepKeepsInv(s, actions[0]);
      LpLeavesHpAlone(s);
      var t := Step(s, actions[0]);
      if t.hp.Poll? {
        PollIsAnswered(t, actions[1..]);
      } else {
        PostIsAnswered(t, actions[1..]);
      }
    }
  }

  /** In every reachable state: a send that begins with the command word clear is answered in
      time if the LP core makes six accesses between the command write and the last of the n
      reads. It is then over after that read at the latest, and OK exactly for the three known
      opcodes and those with bit 31. */
  lemma ClearSendIsAnswered(before: seq<Action>, op: u32, n: nat, sampling: bool, during: seq<Action>)
    requires var s := Run(START, before); s.hp.Idle? && s.cmd == NOTHING
    requires op != 0 && n > 0 && (sampling ==> op == SAMPLE) && NoSend(during)
    requires LpBefore(during, n + 1) >= LpBefore(during, 1) + 6
    ensures var s := Run(START, before);
            var results := Run(Send(s, op, n, sampling), during).results;
            && (results == s.results || results == s.results + [Verdict(op)])
            && (HpAccesses(during) >= n + 2 ==> results != s.results)
  {
    StartInv();
    EveryRunKeepsInv(START, before);
    var s := Run(START, before);
    SendKeepsInv(s, op, n, sampling);
    BeginsClear(s, op, n, sampling);
    PostIsAnswered(Send(s, op, n, sampling), during);
    hide Run, Inv;
  }

  lemma BeginsClear(s: System, op: u32, n: nat, sampling: bool)
    requires Inv(s) && s.hp.Idle? && s.cmd == NOTHING && op != 0 && (sampling ==> op == SAMPLE)
    ensures var t := Send(s, op, n, sampling);
            && t.hp == ClearAck(op, n, sampling) && t.results == s.results
            && |t.results| < |t.clear| && t.clear[|t.results|]
  {
  }

  // ---- Runs of clear sends -----------------------------------------------

  predicate AllClear(s: System) {
    forall i :: 0 <= i < |s.clear| ==> s.clear[i]
  }

  /** Every command but the newest is executed; the newest is held, or not yet written. */
  ghost predicate NoneLost(s: System) {
    && (forall i :: 0 <= i < |s.sent| - 1 ==> Executed(s, i))
    && (s.sent != [] ==> s.hp.ClearAck? || s.hp.SetCmd? || Held(s, Command(s.sent[|s.sent| - 1], |s.sent|)))
  }

  /** What one step does to the history: more is executed, and a send may begin. */
  lemma StepHistory(s: System, a: Action)
    requires |s.clear| == |s.sent|
    ensures var t := Step(s, a);
            && s.log <= t.log && |t.clear| == |t.sent|
            && (t.sent == s.sent
                || (|t.sent| == |s.sent| + 1 && s.sent <= t.sent && s.hp.Idle?
                    && (t.clear[|s.sent|] ==> s.cmd == NOTHING)))
  {
    LpLogGrows(s);
    LpLeavesHpAlone(s);
    hide LpStep;
  }

  lemma StepLosesNone(s: System, a: Action)
    requires Inv(s) && AllClear(Step(s, a)) && NoneLost(s)
    ensures NoneLost(Step(s, a))
  {
    var t := Step(s, a);
    StepKeepsInv(s, a);
    StepHistory(s, a);
    hide Step, Inv, Held;
    forall i | 0 <= i < |t.sent| - 1 ensures Executed(t, i) {
      if i < |s.sent| - 1 {
        assert Executed(s, i);
      } else {
        assert t.clear[|s.sent|];
        ClearMeansExecuted(s, Command(s.sent[i], i + 1));
      }
    }
    if t.sent != [] {
      NewestIsHeld(t);
    }
  }

  lemma NewestIsHeld(s: System)
    requires Inv(s) && AllClear(s) && s.sent != []
    ensures s.hp.ClearAck? || s.hp.SetCmd? || Held(s, Command(s.sent[|s.sent| - 1], |s.sent|))
  {
  }

  /** Over every run in which each send begins with the command word clear, however many time
      out, every command but the newest has been executed, and the newest is held or still
      being sent. */
  lemma {:induction false} ClearSendsLoseNone(actions: seq<Action>)
    requires AllClear(Run(START, actions))
    ensures NoneLost(Run(START, actions))
    decreases |actions|
  {
    StartInv();
    if actions != [] {
      var n := |actions| - 1;
      assert actions == actions[..n] + [actions[n]];
      RunOneMore(START, actions[..n], actions[n]);
      EveryRunKeepsInv(START, actions[..n]);
      var s := Run(START, actions[..n]);
      ClearGrows(s, actions[n]);
      ClearSendsLoseNone(actions[..n]);
      StepLosesNone(s, actions[n]);
    }
    hide Run, Step, Inv, NoneLost;
  }

  lemma ClearGrows(s: System, a: Action)
    ensures s.clear <= Step(s, a).clear
  {
    LpLeavesHpAlone(s);
    hide LpStep;
  }

  /** A send after a timeout that does not wait for the word to clear: it writes its command
      over the first one, which began clear, was held when its send timed out, and never
      executes. */
  lemma NextSendCanOverwrite()
    ensures exists first, second, rest ::
              var s := Run(START, first);
              var t := Run(s, second + rest);
              && s.results == [Timeout] && s.clear == [true] && Held(s, Command(ENTER_SLEEP, 1))
              && t.clear == [true, false] && t.log == [Command(SAMPLE, 2)] && t.lp.Fetch? && t.cmd == NOTHING
  {
    var first := [Begin(ENTER_SLEEP, 0, false), HpAccess, HpAccess, HpAccess];
    var second := [Begin(SAMPLE, 0, false), HpAccess, HpAccess, HpAccess];
    var four := [LpAccess, LpAccess, LpAccess, LpAccess];
    RunUnfolds4(START, first);
    var s := Run(START, first);
    assert s == START.(cmd := Command(ENTER_SLEEP, 1), sent := [ENTER_SLEEP], clear := [true], results := [Timeout]);
    RunUnfolds4(s, second);
    var u := Run(s, second);
    SampleAlone(u);
    hide Step;
    RunConcat(u, four, four);
    RunConcat(s, second, four + four);
  }

  /** A sample in the word, and the LP core alone. */
  lemma SampleAlone(u: System)
    requires u.lp.Fetch? && u.cmd.op == SAMPLE
    ensures var four := [LpAccess, LpAccess, LpAccess, LpAccess];
            var t := Run(Run(u, four), four);
            t.lp.Fetch? && t.cmd == NOTHING && t.log == u.log + [u.cmd] && t.clear == u.clear
  {
    var four := [LpAccess, LpAccess, LpAccess, LpAccess];
    RunUnfolds4(u, four);
    RunUnfolds4(Run(u, four), four);
    SampleHalfway(u);
    hide Run, LpStep;
  }

  lemma SampleHalfway(u: System)
    requires u.lp.Fetch? && u.cmd.op == SAMPLE
    ensures var v := LpStep(LpStep(LpStep(LpStep(u))));
            var t := LpStep(LpStep(LpStep(LpStep(v))));
            t.lp.Fetch? && t.cmd == NOTHING && t.log == u.log + [u.cmd] && t.clear == u.clear
  {
    var wake := Add32(u.wake, 1);
    assert LpStep(LpStep(LpStep(LpStep(u)))) == u.(wake := wake, lp := RawStore(u.cmd, wake), log := u.log + [u.cmd]);
  }

  /** After a timeout the late answer to the old command passes for an answer to the new
      one, which is then erased unexecuted by the LP core's final clear. */
  lemma OkCanBeFalseAfterTimeout()
    ensures exists actions :: var s := Run(START, actions);
              && s.results == [Timeout, Ok] && s.sent == [ENTER_SLEEP, ENTER_SLEEP]
              && s.log == [Command(ENTER_SLEEP, 1)] && s.lp.Fetch? && s.cmd == NOTHING
  {
    var first := [Begin(ENTER_SLEEP, 0, false), HpAccess, HpAccess, LpAccess, HpAccess];
    var second := [Begin(ENTER_SLEEP, 1, false), HpAccess, HpAccess, LpAccess, HpAccess];
    var s1 := Run(START, first);
    RunUnfolds5(START, first);
    var s2 := Run(s1, second);
    RunUnfolds5(s1, second);
    RunConcat(START, first, second);
    RunConcat(START, first + second, [LpAccess]);
    assert Run(s2, [LpAccess]) == LpStep(s2);
    var s := Run(START, first + second + [LpAccess]);
    assert s.results == [Timeout, Ok];
  }

  /** The final clear can erase the next command too: it then times out unexecuted. */
  lemma ClearCanEraseNextCommand()
    ensures exists actions :: var s := Run(START, actions);
              && s.results == [Ok, Timeout] && |s.sent| == 2
              && s.log == [Command(ENTER_SLEEP, 1)] && s.lp.Fetch? && s.cmd == NOTHING
  {
    var first := [Begin(ENTER_SLEEP, 1, false), HpAccess, HpAccess, LpAccess, LpAccess];
    var second := [HpAccess, Begin(ENTER_SLEEP, 0, false), HpAccess, HpAccess, LpAccess];
    var s1 := Run(START, first);
    RunUnfolds5(START, first);
    var s2 := Run(s1, second);
    RunUnfolds5(s1, second);
    RunConcat(START, first, second);
    RunConcat(START, first + second, [HpAccess]);
    assert Run(s2, [HpAccess]) == HpStep(s2);
    var s := Run(START, first + second + [HpAccess]);
    assert s.results == [Ok, Timeout];
  }

  lemma RunUnfolds4(s: System, a: seq<Action>)
    requires |a| == 4
    ensures Run(s, a) == Step(Step(Step(Step(s, a[0]), a[1]), a[2]), a[3])
  {
    var a1, a2, a3 := a[1..], a[2..], a[3..];
    assert a1[1..] == a2 && a2[1..] == a3 && a3[1..] == [];
    var s1 := Step(s, a[0]);
    var s2 := Step(s1, a[1]);
    assert Run(s, a) == Run(s1, a1) == Run(s2, a2);
    assert Run(s2, a2) == Run(Step(s2, a[2]), a3) == Step(Step(s2, a[2]), a[3]);
  }

  lemma RunUnfolds5(s: System, a: seq<Action>)
    requires |a| == 5
    ensures Run(s, a) == Step(Step(Step(Step(Step(s, a[0]), a[1]), a[2]), a[3]), a[4])
  {
    var a1, a2, a3, a4 := a[1..], a[2..], a[3..], a[4..];
    assert a1[1..] == a2 && a2[1..] == a3 && a3[1..] == a4 && a4[1..] == [];
    var s1 := Step(s, a[0]);
    var s2 := Step(s1, a[1]);
    var s3 := Step(s2, a[2]);
    assert Run(s, a) == Run(s1, a1) == Run(s2, a2) == Run(s3, a3);
    assert Run(s3, a3) == Run(Step(s3, a[3]), a4) == Step(Step(s3, a[3]), a[4]);
  }

  lemma {:induction false} RunConcat(s: System, a: seq<Action>, b: seq<Action>)
    ensures Run(s, a + b) == Run(Run(s, a), b)
    decreases |a|
  {
    if a == [] {
      assert a + b == b;
    } else {
      assert (a + b)[1..] == a[1..] + b;
      RunConcat(Step(s, a[0]), a[1..], b);
    }
  }

  // ---- The calls as they run ---------------------------------------------

  lemma RunOneMore(s: System, actions: seq<Action>, a: Action)
    ensures Run(s, actions + [a]) == Step(Run(s, actions), a)
  {
    RunConcat(s, actions, [a]);
  }

  lemma NotSentBefore(s: System, op: u32)
    requires Inv(s)
    ensures Next(s, op) !in s.log
  {
    forall i | 0 <= i < |s.log| ensures s.log[i] != Next(s, op) {
      assert IsSent(s.sent, Written(s), s.log[i]);
    }
  }

  /** What the last result of a finished send is worth. */
  lemma SendResult(actions: seq<Action>, op: u32, r: Result)
    requires var s := Run(START, actions);
             && s.hp.Idle? && s.sent != [] && s.sent[|s.sent| - 1] == op
             && s.results != [] && s.results[|s.results| - 1] == r
    ensures var s := Run(START, actions);
            var clear := s.clear != [] && s.clear[|s.clear| - 1];
            && (r != Timeout && (clear || Timeout !in s.results) ==>
                  (r == Ok <==> Known(op) || op >= ERROR_FLAG) && Command(op, |s.sent|) in s.log)
            && (clear ==> Held(s, Command(op, |s.sent|)))
  {
    StartInv();
    EveryRunKeepsInv(START, actions);
    var s := Run(START, actions);
    var i := |s.results| - 1;
    if r != Timeout && (s.clear[i] || Timeout !in s.results) {
      assert s.trusted < |s.results| ==> s.results[s.trusted] in s.results;
      assert Truthful(s, i) && Executed(s, i);
    }
  }

  lemma StepKeepsInv(s: System, a: Action)
    requires Inv(s)
    ensures Inv(Step(s, a))
  {
    match a {
      case LpAccess => LpKeepsInv(s);
      case HpAccess => HpKeepsInv(s);
      case Begin(op, budget, sampling) => SendKeepsInv(s, op, budget, sampling);
    }
  }

  /** One access of the LP core changes at most one shared word, clears the command word only
      after answering, and executes at most the command it fetched, newer than all before. */
  ghost predicate OneAccess(s: System, t: System) {
    && (if t.cmd != s.cmd then 1 else 0) + (if t.ack != s.ack then 1 else 0)
       + (if t.wake != s.wake then 1 else 0) + (if t.raw != s.raw then 1 else 0) <= 1
    && (t.cmd != s.cmd ==> s.lp.ClearCmd? && t.cmd == NOTHING && s.lp.c in t.log)
    && (t.ack != s.ack ==> !s.lp.Fetch? && t.ack == AckFor(s.lp.c.op) && s.lp.c in t.log)
    && (t.log == s.log
        || (!s.lp.Fetch? && t.log == s.log + [s.lp.c] && forall c :: c in s.log ==> c.id < s.lp.c.id))
  }

  lemma LpStepIsOneAccess(s: System)
    requires Inv(s)
    ensures OneAccess(s, LpStep(s))
  {
    if !s.lp.Fetch? {
      HandledIsNewest(s);
    }
    hide Inv, AckFor, Telemetry;
  }

  /** The command in the LP core's hands is newer than all executed ones, or the last of them. */
  lemma HandledIsNewest(s: System)
    requires Inv(s) && !s.lp.Fetch?
    ensures if BeforeEffect(s.lp) then forall c :: c in s.log ==> c.id < s.lp.c.id else s.lp.c in s.log
    ensures LpShaped(s.lp, s.wake)
  {
    hide InStep, CountsOk, ResultsOk, CleanOk, HpShaped;
    if !BeforeEffect(s.lp) {
      assert IsSent(s.sent, Written(s), s.log[|s.log| - 1]);
    }
  }

  /** What a poll that is over was about. */
  lemma PollEnds(s: System, before: seq<Action>, after: seq<Action>, r: Result)
    requires before <= after && s == Run(START, before) && s.hp.Poll? && NoSendFrom(after, |before|)
    requires Run(START, after).results == s.results + [r]
    ensures var answer := FirstAnswer(s, after[|before|..], s.hp.op, 0, s.hp.budget);
            r == ResultOf(answer, s.hp.op) && (r == Timeout ==> HpAccesses(after[|before|..]) > s.hp.budget)
  {
    hide *;
    assert after[..|before|] == before;
    NoSendAfter(after, |before|);
    RunOfSuffix(after, |before|);
    PollEndsAsRead(s, after[|before|..]);
    ReadsEnd(s, after[|before|..], s.hp.op, 0, s.hp.budget, Run(START, after).results);
    assert Run(START, after).results[|s.results|] == r;
  }

  lemma ReadsEnd(s: System, actions: seq<Action>, op: u32, from: nat, n: nat, results: seq<Result>)
    requires EndsAsRead(s, actions, op, from, n, results) && results != s.results
    ensures var answer := FirstAnswer(s, actions, op, from, n);
            && results == s.results + [ResultOf(answer, op)]
            && (ResultOf(answer, op) == Timeout ==> HpAccesses(actions) > from + n)
  {
  }

  lemma BeginIsSend(s: System, op: u32, n: nat, sampling: bool)
    ensures Step(s, Begin(op, n, sampling)) == Send(s, op, n, sampling)
    ensures Send(s, op, n, sampling).results == s.results
  {
  }

  /** What a finished call promises of its trace: r is the first answer the timeout reads found,
      or a timeout if all of them found none; and with the command word clear as it began and
      six accesses of the LP core between the command write and the last read, it is the LP
      core's verdict. */
  ghost predicate SentAsTraced(s: System, actions: seq<Action>, op: u32, timeout: nat, sampling: bool, r: Result) {
    actions != [] && actions[0] == Begin(op, timeout, sampling) &&
    var begun, during := Step(s, actions[0]), actions[1..];
    var answer := FirstAnswer(begun, during, op, 2, timeout);
    && NoSend(during) && r == ResultOf(answer, op)
    && (r == Timeout ==> HpAccesses(during) > timeout + 2)
    && (s.cmd == NOTHING && timeout > 0 && LpBefore(during, timeout + 1) >= LpBefore(during, 1) + 6 ==>
          r == Verdict(op))
  }

  lemma IsTraced(s: System, actions: seq<Action>, op: u32, timeout: nat, sampling: bool, r: Result)
    requires actions != [] && actions[0] == Begin(op, timeout, sampling) && NoSend(actions[1..])
    requires var during := actions[1..];
             var answer := FirstAnswer(Step(s, actions[0]), during, op, 2, timeout);
             && r == ResultOf(answer, op) && (r == Timeout ==> HpAccesses(during) > timeout + 2)
             && (s.cmd == NOTHING && timeout > 0 && LpBefore(during, timeout + 1) >= LpBefore(during, 1) + 6 ==>
                   r == Verdict(op))
    ensures SentAsTraced(s, actions, op, timeout, sampling, r)
  {
    hide FirstAnswer, HpAccesses, LpBefore, NoSend, Verdict;
  }

  lemma SendIsTraced(before: seq<Action>, during: seq<Action>, op: u32, n: nat, sampling: bool, r: Result)
    requires Run(START, before).hp.Idle? && op != 0 && (sampling ==> op == SAMPLE) && NoSend(during)
    requires var s := Run(START, before); Run(Send(s, op, n, sampling), during).results == s.results + [r]
    ensures SentAsTraced(Run(START, before), [Begin(op, n, sampling)] + during, op, n, sampling, r)
  {
    hide *;
    var s, b := Run(START, before), Begin(op, n, sampling);
    var begun := Send(s, op, n, sampling);
    var results := Run(begun, during).results;
    BeginIsSend(s, op, n, sampling);
    SendEndsAsRead(s, op, n, sampling, during);
    assert results != begun.results;
    ReadsEnd(begun, during, op, 2, n, results);
    assert results[|s.results|] == r;
    if s.cmd == NOTHING && n > 0 && LpBefore(during, n + 1) >= LpBefore(during, 1) + 6 {
      ClearSendIsAnswered(before, op, n, sampling, during);
      assert results[|s.results|] == Verdict(op);
    }
    assert ([b] + during)[1..] == during;
    IsTraced(s, [b] + during, op, n, sampling, r);
  }

  /** A finished call, from its trace. */
  lemma TracedSend(before: seq<Action>, after: seq<Action>, op: u32, n: nat, sampling: bool, r: Result)
    requires before < after && after[|before|] == Begin(op, n, sampling) && NoSendFrom(after, |before| + 1)
    requires Run(START, before).hp.Idle? && op != 0 && (sampling ==> op == SAMPLE)
    requires Run(START, after).results == Run(START, before).results + [r]
    ensures SentAsTraced(Run(START, before), after[|before|..], op, n, sampling, r)
  {
    hide *;
    var b := Begin(op, n, sampling);
    var during := after[|before| + 1..];
    assert after[..|before| + 1] == before + [b] && after[|before|..] == [b] + during;
    RunOneMore(START, before, b);
    BeginIsSend(Run(START, before), op, n, sampling);
    NoSendAfter(after, |before| + 1);
    RunOfSuffix(after, |before| + 1);
    SendIsTraced(before, during, op, n, sampling, r);
  }

  /** No send begins from trace position k on. */
  predicate NoSendFrom(trace: seq<Action>, k: nat) {
    forall i :: k <= i < |trace| ==> !trace[i].Begin?
  }

  lemma NoSendAfter(trace: seq<Action>, k: nat)
    requires k <= |trace| && NoSendFrom(trace, k)
    ensures NoSend(trace[k..])
  {
  }

  lemma RunOfSuffix(trace: seq<Action>, k: nat)
    requires k <= |trace|
    ensures Run(START, trace) == Run(Run(START, trace[..k]), trace[k..])
  {
    hide *;
    assert trace == trace[..k] + trace[k..];
    RunConcat(START, trace[..k], trace[k..]);
  }

  /** The shared words and the LP core's place in its loop; trace records every access. */
  class Board {
    var cmd: Command
    var ack: u32
    var wake: u32
    var raw: u32
    var lp: Lp
    var sends: nat
    ghost var trace: seq<Action>
    ghost var sys: System

    ghost predicate Valid()
      reads this
    {
      && sys == Run(START, trace) && Inv(sys) && sends == |sys.sent|
      && sys.cmd == cmd && sys.ack == ack && sys.wake == wake && sys.raw == raw && sys.lp == lp
    }

    constructor ()
      ensures Valid() && sys == START
    {
      cmd, ack, wake, raw, lp, sends := NOTHING, 0, 0, 0, Fetch, 0;
      sys, trace := START, [];
    }

    ghost method Record(a: Action)
      requires sys == Run(START, trace) && Inv(sys)
      modifies `trace, `sys
      ensures trace == old(trace) + [a] && sys == Step(old(sys), a) == Run(START, trace) && Inv(sys)
    {
      RunOneMore(START, trace, a);
      StepKeepsInv(sys, a);
      trace, sys := trace + [a], Step(sys, a);
    }

    /** The servicing loop of the LP core, one access of a shared word per call. */
    method ServiceOneAccess()
      requires Valid()
      modifies this
      ensures Valid() && sends == old(sends)
      ensures sys == LpStep(old(sys)) && trace == old(trace) + [LpAccess]
      ensures OneAccess(old(sys), sys)
    {
      hide Inv, OneAccess, Run, AckFor, Telemetry;
      LpStepIsOneAccess(sys);
      match lp {
        case Fetch =>
          if cmd.op == SAMPLE {
            lp := BumpLoad(cmd);
          } else if cmd.op == RESET_STATS {
            lp := ZeroWake(cmd);
          } else if cmd.op != 0 {
            lp := PostAck(cmd);
          }
        case BumpLoad(c) => lp := BumpStore(c, wake);
        case BumpStore(c, w) => wake, lp := Add32(w, 1), RawLoad(c);
        case RawLoad(c) => lp := RawStore(c, wake);
        case RawStore(c, w) => raw, lp := Telemetry(w), PostAck(c);
        case ZeroWake(c) => wake, lp := 0, ZeroRaw(c);
        case ZeroRaw(c) => raw, lp := 0, PostAck(c);
        case PostAck(c) => ack, lp := AckFor(c.op), ClearCmd(c);
        case ClearCmd(_) => cmd, lp := NOTHING, Fetch;
      }
      Record(LpAccess);
    }

    /** Any number of LP accesses, between two accesses of the HP side. */
    method LetLpRun()
      requires Valid()
      modifies this
      ensures Valid() && sends == old(sends) && old(trace) <= trace
      ensures sys.hp == old(sys).hp && sys.sent == old(sys).sent && sys.clear == old(sys).clear
      ensures sys.results == old(sys).results && old(sys).log <= sys.log
      ensures NoSendFrom(trace, |old(trace)|)
    {
      hide Run, Inv, LpStep;
      var n: nat := *;
      var i := 0;
      while i < n
        invariant Valid() && sends == old(sends) && old(trace) <= trace
        invariant sys.hp == old(sys).hp && sys.sent == old(sys).sent && sys.clear == old(sys).clear
        invariant sys.results == old(sys).results && old(sys).log <= sys.log
        invariant NoSendFrom(trace, |old(trace)|)
      {
        LpLeavesHpAlone(sys);
        LpLogGrows(sys);
        ServiceOneAccess();
        i := i + 1;
      }
    }

    /** Clears the acknowledge word and writes the command word. */
    method PostCommand(op: u32, timeout: nat, sampling: bool)
      requires Valid() && sys.hp.Idle? && op != 0 && (sampling ==> op == SAMPLE)
      modifies this
      ensures Valid() && old(trace) <= trace && sys.hp == Poll(op, timeout, sampling)
      ensures |trace| > |old(trace)| && trace[|old(trace)|] == Begin(op, timeout, sampling)
      ensures NoSendFrom(trace, |old(trace)| + 1)
      ensures sys.sent == old(sys).sent + [op] && sys.results == old(sys).results
      ensures sys.clear == old(sys).clear + [old(cmd) == NOTHING] && old(sys).log <= sys.log
    {
      hide Run, LpStep, Inv;
      Record(Begin(op, timeout, sampling));
      sends := sends + 1;

      LetLpRun();
      Record(HpAccess);
      ack := 0;

      LetLpRun();
      Record(HpAccess);
      cmd := Command(op, sends);
    }

    /** Polls the acknowledge word, at most timeout times: the first answer read is the result,
        and a timeout means that all of the reads found none. */
    method AwaitAck(op: u32, timeout: nat, sampling: bool) returns (r: Result)
      requires Valid() && sys.hp == Poll(op, timeout, sampling)
      modifies this
      ensures Valid() && old(trace) <= trace
      ensures sys.hp == if sampling && r == Ok then ReadRaw else Idle
      ensures sys.sent == old(sys).sent && sys.clear == old(sys).clear && sys.results == old(sys).results + [r]
      ensures old(sys).log <= sys.log && NoSendFrom(trace, |old(trace)|)
      ensures r == ResultOf(FirstAnswer(old(sys), trace[|old(trace)|..], op, 0, timeout), op)
      ensures r == Timeout ==> HpAccesses(trace[|old(trace)|..]) > timeout
    {
      hide Run, LpStep, Inv, FirstAnswer, HpAccesses;
      var cycle := 0;
      while cycle < timeout
        invariant cycle <= timeout && Valid() && old(trace) <= trace
        invariant sys.hp == Poll(op, timeout - cycle, sampling)
        invariant sys.sent == old(sys).sent && sys.clear == old(sys).clear && sys.results == old(sys).results
        invariant old(sys).log <= sys.log && NoSendFrom(trace, |old(trace)|)
      {
        LetLpRun();
        Record(HpAccess);
        if ack == op {
          PollEnds(old(sys), old(trace), trace, Ok);
          return Ok;
        }
        if ack >= ERROR_FLAG {
          PollEnds(old(sys), old(trace), trace, Invalid);
          return Invalid;
        }
        cycle := cycle + 1;
      }
      Record(HpAccess);
      PollEnds(old(sys), old(trace), trace, Timeout);
      return Timeout;
    }

    /** power_send_cmd with the LP core running, whatever the LP core does meanwhile. With the
        command word clear, or as long as nothing timed out, a result means the command
        executed during the call; with the word clear a command that timed out is held, and
        every one held before is executed; if every send so far began clear, so is every
        earlier command. What the reads found decides the result: see SentAsTraced. */
    method SendCmd(op: u32, timeout: nat) returns (r: Result)
      requires Valid() && sys.hp.Idle?
      modifies this
      ensures Valid() && sys.hp.Idle? && old(trace) <= trace
      ensures op == 0 ==> r == Invalid && sys == old(sys)
      ensures op != 0 ==> sys.sent == old(sys).sent + [op] && sys.results == old(sys).results + [r]
      ensures op != 0 && r != Timeout && (old(cmd) == NOTHING || Timeout !in sys.results) ==>
                && (r == Ok <==> Known(op) || op >= ERROR_FLAG)
                && Command(op, |sys.sent|) in sys.log && Command(op, |sys.sent|) !in old(sys).log
      ensures op != 0 ==> SentAsTraced(old(sys), trace[|old(trace)|..], op, timeout, false, r)
      ensures op != 0 && old(cmd) == NOTHING ==> Held(sys, Command(op, |sys.sent|))
      ensures op != 0 && old(cmd) == NOTHING ==>
                forall c: Command :: c.op != 0 && old(Held(sys, c)) ==> c in sys.log
      ensures AllClear(sys) ==> NoneLost(sys)
    {
      hide Inv, Run, Held, NoneLost, AllClear;
      if AllClear(sys) {
        ClearSendsLoseNone(trace);
      }
      if op == 0 {
        return Invalid;
      }
      forall c: Command | cmd == NOTHING && c.op != 0 && Held(sys, c) ensures c in sys.log {
        ClearMeansExecuted(sys, c);
      }
      PostCommand(op, timeout, false);
      r := AwaitAck(op, timeout, false);
      TracedSend(old(trace), trace, op, timeout, false, r);
      NotSentBefore(old(sys), op);
      SendResult(trace, op, r);
      if AllClear(sys) {
        ClearSendsLoseNone(trace);
      }
    }

    /** power_sample_telemetry with the LP core running; trace goes to n with the send. */
    method SampleTelemetry(timeout: nat) returns (r: Result, value: u32)
      requires Valid() && sys.hp.Idle?
      modifies this
      ensures Valid() && sys.hp.Idle? && old(trace) <= trace
      ensures sys.results == old(sys).results + [r]
      ensures exists n: nat :: |old(trace)| <= n <= |trace|
                && SentAsTraced(old(sys), trace[|old(trace)|..n], SAMPLE, timeout, true, r)
      ensures r == Ok && (old(cmd) == NOTHING || Timeout !in old(sys).results) ==>
                && value == HEADER + Samples(sys.log) % 0x1_0000 && Samples(sys.log) > 0
                && Last(sys.log) == Command(SAMPLE, |sys.sent|)
    {
      hide Inv, Run, Samples;
      PostCommand(SAMPLE, timeout, true);
      r := AwaitAck(SAMPLE, timeout, true);
      TracedSend(old(trace), trace, SAMPLE, timeout, true, r);
      ghost var n := |trace|;
      ghost var call := trace[|old(trace)|..];
      value := 0;
      if r == Ok {
        LetLpRun();
        if Timeout !in sys.results || old(cmd) == NOTHING {
          SampleReadsCount(trace);
        }
        Record(HpAccess);
        value := raw;
      }
      assert trace[|old(trace)|..n] == call;
    }
  }
}
