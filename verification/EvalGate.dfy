/** The evaluation gate: a 30-day window anchored in a checksummed state file, with a watermark
    against clock rollback. */
module EvalGate {
  import opened Basics

  const EVAL_PERIOD_SECS: nat := 2592000
  /** "DFIMLIC\0" */
  const STATE_MAGIC: Bytes := [0x44, 0x46, 0x49, 0x4D, 0x4C, 0x49, 0x43, 0x00]
  const STATE_VERSION: nat := 1
  const STATE_HEADER_LEN: nat := 28
  const STATE_FILE_LEN: nat := 60
  /** "STATE_" */
  const PLAINTEXT_PREFIX: Bytes := [0x53, 0x54, 0x41, 0x54, 0x45, 0x5F]
  /** "dfim-host-init-license-v1\0" */
  const INTEGRITY_DOMAIN: Bytes := [
    0x64, 0x66, 0x69, 0x6D, 0x2D, 0x68, 0x6F, 0x73, 0x74, 0x2D, 0x69, 0x6E, 0x69, 0x74, 0x2D, 0x6C,
    0x69, 0x63, 0x65, 0x6E, 0x73, 0x65, 0x2D, 0x76, 0x31, 0x00]

  datatype LicenseState = LicenseState(activation: u64, lastExecution: u64)
  datatype GateError = ClockTampering | Expired | StateUnreadable
  datatype GateResult = Open | Closed(error: GateError)

  // ------------------------------------------------------------- the state file

  /** Bytes 10 and 11 stay zero. */
  function EncodeHeader(s: LicenseState): (b: Bytes)
    ensures |b| == STATE_HEADER_LEN
  {
    STATE_MAGIC + ToLE(STATE_VERSION, 2) + [0, 0] + ToLE(s.activation, 8) + ToLE(s.lastExecution, 8)
  }

  function DecodeHeader(b: Bytes): (s: Option<LicenseState>)
    requires |b| == STATE_HEADER_LEN
  {
    if b[0..8] != STATE_MAGIC || FromLE(b[8..10]) != STATE_VERSION then None
    else Some(LicenseState(Read64(b, 12), Read64(b, 20)))
  }

  function Integrity(H: Hash, header: Bytes): (d: Digest) {
    H(INTEGRITY_DOMAIN + header)
  }

  function StateFile(H: Hash, s: LicenseState): (b: Bytes)
    ensures |b| == STATE_FILE_LEN
  {
    EncodeHeader(s) + Integrity(H, EncodeHeader(s))
  }

  /** `read_state` on the bytes of the file. */
  function ReadState(H: Hash, bytes: Bytes): (s: Option<LicenseState>) {
    if |bytes| != STATE_FILE_LEN then None
    else if PLAINTEXT_PREFIX <= bytes then None
    else if Integrity(H, bytes[..28]) != bytes[28..] then None
    else DecodeHeader(bytes[..28])
  }

  lemma HeaderSlices(s: LicenseState)
    ensures var b := EncodeHeader(s);
            && b[0..8] == STATE_MAGIC && b[8..10] == ToLE(STATE_VERSION, 2)
            && b[12..20] == ToLE(s.activation, 8) && b[20..28] == ToLE(s.lastExecution, 8)
  {
    hide ToLE;
  }

  lemma HeaderRoundTrip(s: LicenseState)
    ensures DecodeHeader(EncodeHeader(s)) == Some(s)
  {
    HeaderSlices(s);
    Pow256Values();
    FromLEToLE(STATE_VERSION, 2);
    FromLEToLE(s.activation, 8);
    FromLEToLE(s.lastExecution, 8);
    hide EncodeHeader, ToLE, FromLE;
  }

  /** What is written is what is read back. */
  lemma StateRoundTrip(H: Hash, s: LicenseState)
    ensures ReadState(H, StateFile(H, s)) == Some(s)
  {
    HeaderRoundTrip(s);
    HeaderSlices(s);
    hide EncodeHeader, DecodeHeader, ToLE;
    var file := StateFile(H, s);
    assert file[..28] == EncodeHeader(s) && file[28..] == Integrity(H, EncodeHeader(s));
    assert file[0] == file[..28][0..8][0] == 0x44;
  }

  /** A file is read as a state exactly when it is the file written for it, but for two reserved bytes,
      with a checksum over what it does hold. */
  lemma ReadStateExactly(H: Hash, bytes: Bytes, s: LicenseState)
    ensures ReadState(H, bytes) == Some(s) <==>
              && |bytes| == 60 && bytes[28..] == H(INTEGRITY_DOMAIN + bytes[..28])
              && bytes[..28] == EncodeHeader(s)[10 := bytes[10]][11 := bytes[11]]
  {
    if |bytes| == 60 {
      var header := bytes[..28];
      DecodeHeaderExactly(header, s);
      assert header[10] == bytes[10] && header[11] == bytes[11];
      assert PLAINTEXT_PREFIX <= bytes ==> header[0] == 0x53;
      assert header[0..8] == STATE_MAGIC ==> header[0] == header[0..8][0] == 0x44;
    }
    hide EncodeHeader;
  }

  lemma DecodeHeaderExactly(b: Bytes, s: LicenseState)
    requires |b| == 28
    ensures DecodeHeader(b) == Some(s) <==> b == EncodeHeader(s)[10 := b[10]][11 := b[11]]
  {
    HeaderSlices(s);
    Pow256Values();
    FromLEToLE(STATE_VERSION, 2);
    FromLEToLE(s.activation, 8);
    FromLEToLE(s.lastExecution, 8);
    var c := EncodeHeader(s);
    hide EncodeHeader, ToLE, FromLE;
    if b == c[10 := b[10]][11 := b[11]] {
      assert b[0..8] == c[0..8] && b[8..10] == c[8..10] && b[12..20] == c[12..20] && b[20..28] == c[20..28];
    }
    if DecodeHeader(b) == Some(s) {
      ToLEFromLE(b[8..10]);
      ToLEFromLE(b[12..20]);
      ToLEFromLE(b[20..28]);
      HeaderPieces(b, c);
    }
  }

  lemma HeaderPieces(b: Bytes, c: Bytes)
    requires |b| == 28 == |c| && b[0..8] == c[0..8] && b[8..10] == c[8..10] && b[12..20] == c[12..20] && b[20..28] == c[20..28]
    ensures b == c[10 := b[10]][11 := b[11]]
  {
    forall i | 0 <= i < 28
      ensures b[i] == c[10 := b[10]][11 := b[11]][i]
    {
      if i < 8 {
        assert b[0..8][i] == c[0..8][i];
      } else if i < 10 {
        assert b[8..10][i - 8] == c[8..10][i - 8];
      } else if 12 <= i < 20 {
        assert b[12..20][i - 12] == c[12..20][i - 12];
      } else if 20 <= i {
        assert b[20..28][i - 20] == c[20..28][i - 20];
      }
    }
  }

  /** The marks spelled out. */
  lemma MarksSpelled()
    ensures forall i :: 0 <= i < 7 ==> STATE_MAGIC[i] == "DFIMLIC"[i] as int
    ensures STATE_MAGIC[7] == 0 && |INTEGRITY_DOMAIN| == 26 && INTEGRITY_DOMAIN[25] == 0
    ensures forall i :: 0 <= i < 13 ==> INTEGRITY_DOMAIN[i] == "dfim-host-ini"[i] as int
    ensures forall i :: 0 <= i < 12 ==> INTEGRITY_DOMAIN[13 + i] == "t-license-v1"[i] as int
  {
  }

  // ------------------------------------------------------------- one call

  /** The decision on a readable state; every refusal comes before any write. */
  function Decide(s: LicenseState, now: u64): (r: GateResult) {
    if now < s.lastExecution then Closed(ClockTampering)
    else if now < s.activation then Closed(ClockTampering)
    else if now - s.activation > EVAL_PERIOD_SECS then Closed(Expired)
    else Open
  }

  /** `check_eval_license` against a file (`None`: missing) whose writes succeed. */
  function Gate(H: Hash, file: Option<Bytes>, now: u64): (r: (GateResult, Option<Bytes>)) {
    match file
    case None => (Open, Some(StateFile(H, LicenseState(now, now))))
    case Some(bytes) =>
      match ReadState(H, bytes)
      case None => (Closed(StateUnreadable), file)
      case Some(s) =>
        if Decide(s, now).Open? then (Open, Some(StateFile(H, LicenseState(s.activation, now))))
        else (Decide(s, now), file)
  }

  /** How the write at the end of an accepted call goes: it may fail before the file is opened, or
      after some of the bytes. */
  datatype Write = Written | NotOpened | Torn(written: nat)

  datatype Call = Call(now: u64, write: Write)

  /** `check_eval_license`, writes that fail included: a failed one never opens the gate. */
  function GateWith(H: Hash, file: Option<Bytes>, call: Call): (r: (GateResult, Option<Bytes>)) {
    var (answer, after) := Gate(H, file, call.now);
    if !answer.Open? || call.write.Written? then (answer, after)
    else if call.write.NotOpened? then (Closed(StateUnreadable), file)
    else (Closed(StateUnreadable), Some(after.value[..Min(call.write.written, |after.value|)]))
  }

  class StatePath {
    var file: Option<Bytes>

    constructor ()
      ensures file == None
    {
      file := None;
    }

    /** `check_eval_license` */
    method CheckEvalLicense(H: Hash, now: u64, write: Write) returns (r: GateResult)
      modifies this
      ensures (r, file) == GateWith(H, old(file), Call(now, write))
      ensures !r.Open? && !write.Torn? ==> file == old(file)
      ensures r.Open? ==> write.Written?
    {
      if file.Some? {
        var state := ReadState(H, file.value);
        if state.None? {
          return Closed(StateUnreadable);
        }
        var s := state.value;
        if now < s.lastExecution {
          return Closed(ClockTampering);
        }
        if now < s.activation {
          return Closed(ClockTampering);
        }
        if now - s.activation > EVAL_PERIOD_SECS {
          return Closed(Expired);
        }
        var stored := WriteState(H, LicenseState(s.activation, now), write);
        return if stored then Open else Closed(StateUnreadable);
      } else {
        var stored := WriteState(H, LicenseState(now, now), write);
        return if stored then Open else Closed(StateUnreadable);
      }
    }

    /** `write_state` */
    method WriteState(H: Hash, s: LicenseState, write: Write) returns (ok: bool)
      modifies this
      ensures ok <==> write.Written?
      ensures file == (match write
                       case Written => Some(StateFile(H, s))
                       case NotOpened => old(file)
                       case Torn(k) => Some(StateFile(H, s)[..Min(k, STATE_FILE_LEN)]))
    {
      match write {
        case NotOpened =>
          return false;
        case Torn(k) =>
          file := Some(StateFile(H, s)[..Min(k, STATE_FILE_LEN)]);
          return false;
        case Written =>
          file := Some(StateFile(H, s));
          return true;
      }
    }

    /** A whole run of clock readings. */
    method RunGate(H: Hash, clock: seq<u64>) returns (answers: seq<GateResult>)
      modifies this
      ensures answers == Answers(H, old(file), clock)
      ensures file == FileAfter(H, old(file), clock)
    {
      hide Gate;
      answers := [];
      ghost var start := file;
      assert clock[0..] == clock;
      for k := 0 to |clock|
        invariant Answers(H, start, clock) == answers + Answers(H, file, clock[k..])
        invariant FileAfter(H, start, clock) == FileAfter(H, file, clock[k..])
      {
        assert clock[k..][1..] == clock[k + 1..];
        var r := CheckEvalLicense(H, clock[k], Written);
        answers := answers + [r];
      }
      assert Answers(H, file, clock[|clock|..]) == [];
    }
  }

  // ------------------------------------------------------------- whole runs

  function Answers(H: Hash, file: Option<Bytes>, clock: seq<u64>): (answers: seq<GateResult>)
    decreases |clock|
  {
    if clock == [] then [] else
      var (r, next) := Gate(H, file, clock[0]);
      [r] + Answers(H, next, clock[1..])
  }

  function FileAfter(H: Hash, file: Option<Bytes>, clock: seq<u64>): (after: Option<Bytes>)
    decreases |clock|
  {
    if clock == [] then file else FileAfter(H, Gate(H, file, clock[0]).1, clock[1..])
  }

  /** The state after one reading: a refused one leaves it alone. */
  function Next(s: LicenseState, now: u64): (r: LicenseState) {
    if Decide(s, now).Open? then LicenseState(s.activation, now) else s
  }

  /** The same gate on the state itself instead of its bytes. */
  function Track(s: LicenseState, clock: seq<u64>): (r: LicenseState)
    decreases |clock|
  {
    if clock == [] then s
    else Track(Next(s, clock[0]), clock[1..])
  }

  function Decisions(s: LicenseState, clock: seq<u64>): (answers: seq<GateResult>)
    decreases |clock|
  {
    if clock == [] then []
    else [Decide(s, clock[0])] + Decisions(Next(s, clock[0]), clock[1..])
  }

  /** The bytes add nothing: a run over files is a run over states. */
  lemma {:induction false} FilesTrackStates(H: Hash, s: LicenseState, clock: seq<u64>)
    ensures Answers(H, Some(StateFile(H, s)), clock) == Decisions(s, clock)
    ensures FileAfter(H, Some(StateFile(H, s)), clock) == Some(StateFile(H, Track(s, clock)))
    decreases |clock|
  {
    if clock != [] {
      StateRoundTrip(H, s);
      hide StateFile, ReadState, Decide;
      FilesTrackStates(H, Next(s, clock[0]), clock[1..]);
    }
  }

  /** The clock readings that were let through. */
  function Passed(s: LicenseState, clock: seq<u64>): (ok: seq<u64>)
    decreases |clock|
  {
    if clock == [] then []
    else if Decide(s, clock[0]).Open? then [clock[0]] + Passed(LicenseState(s.activation, clock[0]), clock[1..])
    else Passed(s, clock[1..])
  }

  ghost predicate NonDecreasing(ok: seq<u64>, from: u64) {
    && (forall i :: 0 <= i < |ok| ==> from <= ok[i])
    && (forall i, j :: 0 <= i < j < |ok| ==> ok[i] <= ok[j])
  }

  /** Readings let through never decrease and stay within the period; the activation time never
      moves; and the watermark is the last reading let through. */
  lemma {:induction false} PassedStaysInWindow(s: LicenseState, clock: seq<u64>)
    requires s.activation <= s.lastExecution
    ensures NonDecreasing(Passed(s, clock), s.lastExecution)
    ensures forall i :: 0 <= i < |Passed(s, clock)| ==> Passed(s, clock)[i] <= s.activation + EVAL_PERIOD_SECS
    ensures Track(s, clock).activation == s.activation
    ensures Track(s, clock).lastExecution == if Passed(s, clock) == [] then s.lastExecution else Passed(s, clock)[|Passed(s, clock)| - 1]
    decreases |clock|
  {
    if clock != [] {
      if Decide(s, clock[0]).Open? {
        PassedStaysInWindow(LicenseState(s.activation, clock[0]), clock[1..]);
      } else {
        PassedStaysInWindow(s, clock[1..]);
      }
    }
  }

  /** After any run a reading opens the gate exactly when it is no earlier than any reading let
      through before and no later than thirty days past the activation. */
  lemma GateOpensExactly(s: LicenseState, before: seq<u64>, now: u64)
    requires s.activation <= s.lastExecution
    ensures Decide(Track(s, before), now).Open? <==>
              && s.lastExecution <= now <= s.activation + EVAL_PERIOD_SECS
              && forall i :: 0 <= i < |Passed(s, before)| ==> Passed(s, before)[i] <= now
    ensures Decide(Track(s, before), now) == Closed(ClockTampering) <==>
              now < s.lastExecution || exists i :: 0 <= i < |Passed(s, before)| && now < Passed(s, before)[i]
    ensures Decide(Track(s, before), now) == Closed(Expired) <==>
              && now > s.activation + 30 * 24 * 60 * 60 && now >= s.lastExecution
              && forall i :: 0 <= i < |Passed(s, before)| ==> Passed(s, before)[i] <= now
  {
    PassedStaysInWindow(s, before);
    hide Track, Passed;
  }

  lemma {:induction false} RunsConcatenate(s: LicenseState, before: seq<u64>, after: seq<u64>)
    ensures Decisions(s, before + after) == Decisions(s, before) + Decisions(Track(s, before), after)
    ensures Track(s, before + after) == Track(Track(s, before), after)
    decreases |before|
  {
    hide Next, Decide;
    if before == [] {
      assert before + after == after;
    } else {
      RunsConcatenate(Next(s, before[0]), before[1..], after);
      assert (before + after)[1..] == before[1..] + after;
    }
  }

  /** Deleting a refused reading changes no other answer and not the state that is left. */
  lemma RefusalsLeaveNoTrace(s: LicenseState, before: seq<u64>, refused: u64, after: seq<u64>)
    requires !Decide(Track(s, before), refused).Open?
    ensures Decisions(s, before + after) == Decisions(s, before) + Decisions(Track(s, before), after)
    ensures Decisions(s, before + ([refused] + after))
            == Decisions(s, before) + ([Decide(Track(s, before), refused)] + Decisions(Track(s, before), after))
    ensures Track(s, before + ([refused] + after)) == Track(s, before + after)
  {
    RunsConcatenate(s, before, after);
    RunsConcatenate(s, before, [refused] + after);
    hide Decide;
    assert ([refused] + after)[1..] == after;
  }

  /** From a missing file: the first reading anchors the window, and everything let through
      afterwards lies between the previous such reading and thirty days past the anchor. */
  lemma GateFromMissingFile(H: Hash, first: u64, clock: seq<u64>)
    ensures var s := LicenseState(first, first);
            && Answers(H, None, [first] + clock) == [Open] + Decisions(s, clock)
            && FileAfter(H, None, [first] + clock) == Some(StateFile(H, Track(s, clock)))
            && NonDecreasing(Passed(s, clock), first)
            && (forall i :: 0 <= i < |Passed(s, clock)| ==> Passed(s, clock)[i] <= first + EVAL_PERIOD_SECS)
            && Track(s, clock).activation == first
  {
    var s := LicenseState(first, first);
    FilesTrackStates(H, s, clock);
    PassedStaysInWindow(s, clock);
    hide StateFile, Decisions, Track, Passed, NonDecreasing;
    assert ([first] + clock)[1..] == clock;
  }

  // ------------------------------------------------------------- runs with failing writes

  /** The readings let through by a run in which writes may fail. */
  function PassedWith(H: Hash, file: Option<Bytes>, calls: seq<Call>): (ok: seq<u64>)
    decreases |calls|
  {
    if calls == [] then [] else
      var (answer, after) := GateWith(H, file, calls[0]);
      (if answer.Open? then [calls[0].now] else []) + PassedWith(H, after, calls[1..])
  }

  /** A file that cannot be read keeps the gate closed for good. */
  lemma {:induction false} UnreadableStaysClosed(H: Hash, bytes: Bytes, calls: seq<Call>)
    requires ReadState(H, bytes).None?
    ensures PassedWith(H, Some(bytes), calls) == []
    decreases |calls|
  {
    hide ReadState, StateFile, Decide;
    if calls != [] {
      UnreadableStaysClosed(H, bytes, calls[1..]);
    }
  }

  /** The file after an accepted call: untouched, the new state, or torn and so unreadable. */
  lemma FileAfterOpen(H: Hash, file: Option<Bytes>, call: Call, s: LicenseState)
    requires Gate(H, file, call.now) == (Open, Some(StateFile(H, s)))
    ensures var (answer, after) := GateWith(H, file, call);
            && (answer.Open? ==> after == Some(StateFile(H, s)))
            && (|| after == file || after == Some(StateFile(H, s))
                || (after.Some? && |after.value| < STATE_FILE_LEN && ReadState(H, after.value).None?))
  {
    hide Gate;
    var bytes := StateFile(H, s);
    assert bytes[..|bytes|] == bytes;
  }

  ghost predicate Within(ok: seq<u64>, from: u64, to: nat) {
    NonDecreasing(ok, from) && forall i :: 0 <= i < |ok| ==> ok[i] <= to
  }

  lemma WithinLonger(now: u64, ok: seq<u64>, from: u64, to: nat)
    requires Within(ok, now, to) && from <= now <= to
    ensures Within([now] + ok, from, to) && Within(ok, from, to)
  {
  }

  lemma {:induction false} PassedWithState(H: Hash, s: LicenseState, calls: seq<Call>)
    requires s.activation <= s.lastExecution
    ensures Within(PassedWith(H, Some(StateFile(H, s)), calls), s.lastExecution, s.activation + EVAL_PERIOD_SECS)
    decreases |calls|
  {
    hide StateFile, ReadState, Within, Gate, GateWith, PassedWith, Decide;
    var file, to := Some(StateFile(H, s)), s.activation + EVAL_PERIOD_SECS;
    PassedWithSplits(H, file, calls);
    NothingIsWithin(s.lastExecution, to);
    if calls != [] {
      var call, rest := calls[0], calls[1..];
      var next := LicenseState(s.activation, call.now);
      var (answer, after) := GateWith(H, file, call);
      LaterCall(H, s, call);
      if after == Some(StateFile(H, next)) && s.lastExecution <= call.now <= to {
        PassedWithState(H, next, rest);
        WithinLonger(call.now, PassedWith(H, after, rest), s.lastExecution, to);
      } else if after == file {
        PassedWithState(H, s, rest);
      } else {
        UnreadableStaysClosed(H, after.value, rest);
      }
    }
  }

  /** A call on a readable state keeps it, or moves its watermark up within the window, or leaves
      nothing readable. */
  lemma LaterCall(H: Hash, s: LicenseState, call: Call)
    requires s.activation <= s.lastExecution
    ensures var file := Some(StateFile(H, s));
            var (answer, after) := GateWith(H, file, call);
            var next := LicenseState(s.activation, call.now);
            && (answer.Open? ==> after == Some(StateFile(H, next)) && s.lastExecution <= call.now <= s.activation + EVAL_PERIOD_SECS)
            && (|| after == file
                || (after == Some(StateFile(H, next)) && s.lastExecution <= call.now <= s.activation + EVAL_PERIOD_SECS)
                || (after.Some? && !answer.Open? && ReadState(H, after.value).None?))
  {
    StateRoundTrip(H, s);
    hide StateFile, ReadState, GateWith;
    if Decide(s, call.now).Open? {
      FileAfterOpen(H, Some(StateFile(H, s)), call, LicenseState(s.activation, call.now));
    } else {
      RefusedCall(H, Some(StateFile(H, s)), call);
    }
  }

  lemma NothingIsWithin(from: u64, to: nat)
    ensures Within([], from, to)
  {
  }

  lemma RefusedCall(H: Hash, file: Option<Bytes>, call: Call)
    requires !Gate(H, file, call.now).0.Open?
    ensures !GateWith(H, file, call).0.Open? && GateWith(H, file, call).1 == file
  {
    hide ReadState, StateFile, Decide;
  }

  /** From a missing file, with any writes failing in any way: the readings let through never
      decrease, and the last is at most thirty days after the first. */
  lemma {:induction false} WindowDespiteFailures(H: Hash, calls: seq<Call>)
    ensures var ok := PassedWith(H, None, calls);
            ok != [] ==> Within(ok, ok[0], ok[0] + EVAL_PERIOD_SECS)
    decreases |calls|
  {
    hide StateFile, ReadState, GateWith, Gate, Within, PassedWith;
    PassedWithSplits(H, None, calls);
    if calls != [] {
      var call, rest := calls[0], calls[1..];
      var s, after := LicenseState(call.now, call.now), GateWith(H, None, call).1;
      FirstCall(H, call);
      if after == None {
        WindowDespiteFailures(H, rest);
      } else if after == Some(StateFile(H, s)) {
        PassedWithState(H, s, rest);
        WindowFrom(call.now, PassedWith(H, after, rest));
      } else {
        UnreadableStaysClosed(H, after.value, rest);
      }
    }
  }

  /** A call without a file leaves none, or its own reading as the anchor, or nothing readable. */
  lemma FirstCall(H: Hash, call: Call)
    ensures var (answer, after) := GateWith(H, None, call);
            var s := LicenseState(call.now, call.now);
            && (answer.Open? ==> after == Some(StateFile(H, s)))
            && (after == None || after == Some(StateFile(H, s)) || (after.Some? && ReadState(H, after.value).None?))
  {
    hide StateFile, ReadState, GateWith;
    FileAfterOpen(H, None, call, LicenseState(call.now, call.now));
  }

  lemma PassedWithSplits(H: Hash, file: Option<Bytes>, calls: seq<Call>)
    ensures calls == [] ==> PassedWith(H, file, calls) == []
    ensures calls != [] ==>
              var (answer, after) := GateWith(H, file, calls[0]);
              PassedWith(H, file, calls)
              == if answer.Open? then [calls[0].now] + PassedWith(H, after, calls[1..]) else PassedWith(H, after, calls[1..])
  {
    hide GateWith;
  }

  lemma WindowFrom(now: u64, ok: seq<u64>)
    requires Within(ok, now, now + EVAL_PERIOD_SECS)
    ensures Within([now] + ok, now, now + EVAL_PERIOD_SECS)
    ensures ok != [] ==> Within(ok, ok[0], ok[0] + EVAL_PERIOD_SECS)
  {
    WithinLonger(now, ok, now, now + EVAL_PERIOD_SECS);
    if ok != [] {
      WithinFromFirst(ok, now, now + EVAL_PERIOD_SECS);
    }
  }

  lemma WithinFromFirst(ok: seq<u64>, from: u64, to: nat)
    requires ok != [] && Within(ok, from, to)
    ensures Within(ok, ok[0], ok[0] + (to - from))
  {
  }

  /** A damaged file is refused, or the damage found a second preimage of the checksum: two files
      with one stored tag carry the same state unless their tagged strings collide. */
  lemma TagPinsState(H: Hash, a: Bytes, b: Bytes)
    requires ReadState(H, a).Some? && ReadState(H, b).Some? && a[28..] == b[28..]
    ensures ReadState(H, a) == ReadState(H, b) || CollisionIn(H, {INTEGRITY_DOMAIN + a[..28], INTEGRITY_DOMAIN + b[..28]})
  {
    hide DecodeHeader;
    var x, y := INTEGRITY_DOMAIN + a[..28], INTEGRITY_DOMAIN + b[..28];
    EqualOrCollision(H, x, y, {x, y});
    if x == y {
      assert a[..28] == x[26..] && b[..28] == y[26..];
    }
  }
}
