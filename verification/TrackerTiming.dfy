/** apps/cpp_rpc/rpc_tracker_client.h: when a match key is given up. */
module TrackerTiming {
  import opened Indices
  import opened TrackerProtocol

  /** How many unmatched polls the history ends with. */
  function Unmatched(h: seq<Entry>): nat {
    if h != [] && h[|h| - 1].Polled? && !h[|h| - 1].pending then 1 + Unmatched(h[..|h| - 1]) else 0
  }

  /** The unmatched polls in a row just before entry i. */
  function Before(h: seq<Entry>, i: nat): nat
    requires i <= |h|
  {
    Unmatched(h[..i])
  }

  /** The number of unmatched polls in a row that makes a key given up. */
  function Patience(ping: nat): nat
    requires ping >= 1
  {
    UNMATCH_TIMEOUT / ping + 2
  }

  /** It is the least number that outlasts the timeout by more than a period. */
  lemma GivesUpIff(ping: nat, count: nat)
    requires ping >= 1
    ensures GivesUp(ping, count) <==> count >= Patience(ping)
  {
    var q := UNMATCH_TIMEOUT / ping;
    assert UNMATCH_TIMEOUT == q * ping + UNMATCH_TIMEOUT % ping;
    MulDistribute(q, 1, ping);
    MulDistribute(q + 1, 1, ping);
    if count >= q + 2 { MulMonotone(q + 2, count, ping); } else { MulMonotone(count, q + 1, ping); }
  }

  /** A key is retired right after that many unmatched polls in a row, at no other time, and never later. */
  ghost predicate RetiredOnTime(ping: nat, h: seq<Entry>)
    requires ping >= 1
  {
    && (forall i :: 0 <= i <= |h| ==> Before(h, i) <= Patience(ping))
    && (forall i :: 0 <= i < |h| ==> (h[i].Retired? <==> Before(h, i) == Patience(ping)))
  }

  lemma UnmatchedGrows(h: seq<Entry>, e: Entry)
    ensures Unmatched(h + [e]) == if e.Polled? && !e.pending then 1 + Unmatched(h) else 0
  {
    assert (h + [e])[..|h|] == h;
  }

  lemma OnTimeGrows(ping: nat, h: seq<Entry>, e: Entry)
    requires ping >= 1 && RetiredOnTime(ping, h)
    requires e.Retired? <==> Unmatched(h) == Patience(ping)
    ensures RetiredOnTime(ping, h + [e])
  {
    hide Before, Unmatched, Patience;
    var g := h + [e];
    UnmatchedGrows(h, e);
    BeforeEnd(h);
    BeforeEnd(g);
    PatiencePositive(ping);
    forall i | 0 <= i < |g|
      ensures Before(g, i) <= Patience(ping)
      ensures g[i].Retired? <==> Before(g, i) == Patience(ping)
    {
      BeforeGrows(h, e, i);
    }
  }

  lemma BeforeEnd(h: seq<Entry>)
    ensures Before(h, |h|) == Unmatched(h)
  {
    assert h[..|h|] == h;
  }

  lemma BeforeGrows(h: seq<Entry>, e: Entry, i: nat)
    requires i <= |h|
    ensures Before(h + [e], i) == Before(h, i)
  {
    assert (h + [e])[..i] == h[..i];
  }

  lemma PatiencePositive(ping: nat)
    requires ping >= 1
    ensures Patience(ping) >= 2
  {
    assert UNMATCH_TIMEOUT / ping >= 0;
  }

  /** The loop's counter is the number of unmatched polls in a row. */
  ghost predicate Timed(ping: nat, s: State)
    requires ping >= 1
  {
    && RetiredOnTime(ping, s.history)
    && (s.phase.Waiting? ==> s.count == Unmatched(s.history))
    && (s.phase.Regenerating? <==> Unmatched(s.history) == Patience(ping))
  }

  lemma BeginTimed(c: Config, s: State)
    requires c.ping >= 1 && RetiredOnTime(c.ping, s.history) && Unmatched(s.history) < Patience(c.ping)
    requires s.open ==> c.address != ""
    ensures Timed(c.ping, Begin(c, s))
  {
    hide RetiredOnTime, Unmatched, Patience;
  }

  lemma FailTimed(c: Config, s: State)
    requires c.ping >= 1 && RetiredOnTime(c.ping, s.history) && Unmatched(s.history) < Patience(c.ping)
    ensures Timed(c.ping, Fail(c, s))
  {
    hide RetiredOnTime, Unmatched, Patience, Begin;
    PatiencePositive(c.ping);
    UnmatchedGrows(s.history, Aborted);
    OnTimeGrows(c.ping, s.history, Aborted);
    BeginTimed(c, Note(s.(open := false), Aborted));
  }

  lemma RegisterTimed(c: Config, s: State, key: string, ok: bool)
    requires c.ping >= 1 && RetiredOnTime(c.ping, s.history) && Unmatched(s.history) < Patience(c.ping)
    requires s.open && c.address != ""
    ensures Timed(c.ping, Register(c, s, key, ok))
  {
    hide RetiredOnTime, Unmatched, Patience, Begin;
    PatiencePositive(c.ping);
    var t := Note(s.(matchkey := key), Issued(key));
    UnmatchedGrows(s.history, Issued(key));
    OnTimeGrows(c.ping, s.history, Issued(key));
    UnmatchedGrows(t.history, Registered(key));
    OnTimeGrows(c.ping, t.history, Registered(key));
    if !ok { FailTimed(c, t); }
  }

  lemma PollTimed(c: Config, s: State, a: Answer)
    requires c.ping >= 1 && Timed(c.ping, s) && s.phase.Waiting?
    ensures Timed(c.ping, Poll(c, s, a))
  {
    hide RetiredOnTime, Unmatched, Patience, Begin, Contains, GivesUp;
    PatiencePositive(c.ping);
    AtMostPatience(c.ping, s.history);
    if !a.ready {
      if !a.ok {
        FailTimed(c, s);
      } else {
        var e := Polled(s.matchkey, Contains(a.text, s.matchkey), a.text);
        UnmatchedGrows(s.history, e);
        OnTimeGrows(c.ping, s.history, e);
        GivesUpIff(c.ping, Unmatched(s.history + [e]));
        AtMostPatience(c.ping, s.history + [e]);
      }
    }
  }

  lemma AtMostPatience(ping: nat, h: seq<Entry>)
    requires ping >= 1 && RetiredOnTime(ping, h)
    ensures Unmatched(h) <= Patience(ping)
  {
    BeforeEnd(h);
  }

  lemma CheckTimed(c: Config, s: State, a: Answer)
    requires c.ping >= 1 && Timed(c.ping, s) && s.phase.Accepting? && (s.open ==> c.address != "")
    ensures Timed(c.ping, Check(c, s, a))
  {
    hide RetiredOnTime, Unmatched, Patience, Begin, Accepted, Compared;
    PatiencePositive(c.ping);
    AtMostPatience(c.ping, s.history);
    if !a.ok {
      FailTimed(c, s);
    } else {
      var e := Checked(s.matchkey, s.open, a.text, a.taken);
      var t := Note(s, e);
      UnmatchedGrows(s.history, e);
      OnTimeGrows(c.ping, s.history, e);
      UnmatchedGrows(t.history, Served);
      OnTimeGrows(c.ping, t.history, Served);
      BeginTimed(c, Note(t, Served));
      FailTimed(c, t);
    }
  }

  lemma StepTimed(c: Config, s: State, a: Answer)
    requires c.ping >= 1 && Timed(c.ping, s) && Placed(c, s)
    ensures Timed(c.ping, Step(c, s, a))
  {
    hide RetiredOnTime, Unmatched, Patience, Begin, Register, Poll, Check, FirstFree;
    PatiencePositive(c.ping);
    AtMostPatience(c.ping, s.history);
    match s.phase
    case Connecting => if !a.ok { FailTimed(c, s); }
    case Reporting =>
      var r := FirstFree(c.key + ":", s.oldKeys, a.draws);
      if r.Free? { RegisterTimed(c, s, r.key, a.ok); }
    case Waiting => PollTimed(c, s, a);
    case Regenerating =>
      var r := FirstFree(c.key + ":", s.oldKeys, a.draws);
      if r.Free? {
        UnmatchedGrows(s.history, Retired(s.matchkey));
        OnTimeGrows(c.ping, s.history, Retired(s.matchkey));
        RegisterTimed(c, Note(s, Retired(s.matchkey)), r.key, a.ok);
      }
    case Accepting => CheckTimed(c, s, a);
  }

  /**
   In every run a key is given up exactly after the polls in a row that first make
   count * period > timeout + period, and the machine is regenerating exactly then.
   */
  lemma {:induction false} KeysRetireOnTime(c: Config, answers: seq<Answer>)
    requires c.ping >= 1
    ensures Timed(c.ping, Run(c, Init(c), answers))
    ensures Patience(2) == 4
    decreases |answers|
  {
    hide RetiredOnTime, Step, Invariant;
    if answers == [] {
      NothingYet(c);
    } else {
      var before := answers[..|answers| - 1];
      KeysRetireOnTime(c, before);
      RunsKeep(c, before);
      StepTimed(c, Run(c, Init(c), before), answers[|answers| - 1]) by {
        InvariantPlaces(c, Run(c, Init(c), before));
      }
    }
  }

  lemma InvariantPlaces(c: Config, s: State)
    requires Invariant(c, s)
    ensures Placed(c, s)
  {}

  lemma NothingYet(c: Config)
    requires c.ping >= 1
    ensures Timed(c.ping, Init(c))
  {
    PatiencePositive(c.ping);
    var s := State(Connecting, false, "", {}, 0, []);
    assert s.history[..0] == [];
    BeginTimed(c, s);
  }

  ghost predicate NoneRetired(h: seq<Entry>) { forall i :: 0 <= i < |h| ==> !h[i].Retired? }

  lemma NoneRetiredGrows(h: seq<Entry>, e: Entry)
    requires NoneRetired(h) && !e.Retired?
    ensures NoneRetired(h + [e])
  {}

  lemma StepRetiresNone(c: Config, s: State, a: Answer)
    requires c.ping == 0 && !s.phase.Regenerating? && NoneRetired(s.history)
    ensures var t := Step(c, s, a); !t.phase.Regenerating? && NoneRetired(t.history)
  {
    hide NoneRetired, FirstFree, Contains, Accepted, Compared;
    var h := s.history;
    match s.phase
    case Connecting =>
      NoneRetiredGrows(h, Aborted);
    case Reporting =>
      var r := FirstFree(c.key + ":", s.oldKeys, a.draws);
      if r.Free? {
        NoneRetiredGrows(h, Issued(r.key));
        NoneRetiredGrows(h + [Issued(r.key)], Registered(r.key));
        NoneRetiredGrows(h + [Issued(r.key)], Aborted);
      }
    case Waiting =>
      NoneRetiredGrows(h, Polled(s.matchkey, Contains(a.text, s.matchkey), a.text));
      NoneRetiredGrows(h, Aborted);
      assert (s.count + 1) * 0 == 0;
    case Accepting =>
      var e := Checked(s.matchkey, s.open, a.text, a.taken);
      NoneRetiredGrows(h, e);
      NoneRetiredGrows(h + [e], Served);
      NoneRetiredGrows(h + [e], Aborted);
      NoneRetiredGrows(h, Aborted);
  }

  /** With no time between polls a key is never given up, in any run. */
  lemma {:induction false} KeysNeverRetire(c: Config, answers: seq<Answer>)
    requires c.ping == 0
    ensures var s := Run(c, Init(c), answers); !s.phase.Regenerating? && NoneRetired(s.history)
  {
    hide Step;
    if answers != [] {
      var before := answers[..|answers| - 1];
      KeysNeverRetire(c, before);
      StepRetiresNone(c, Run(c, Init(c), before), answers[|answers| - 1]);
    }
  }
}
