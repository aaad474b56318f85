/**
 apps/cpp_rpc/rpc_server.cc and apps/cpp_rpc/rpc_tracker_client.h: which clients are served, which keys
 are found pending, and what that has to do with the answers received.
 */
module TrackerService {
  import opened Indices
  import opened TrackerProtocol
  import opened TrackerTiming

  // ---- texts ----

  /** A part of a text: what stands before it and after it may be anything. */
  ghost predicate PartOf(part: string, text: string) { exists u, v :: text == u + part + v }

  lemma ContainsIff(text: string, part: string)
    ensures Contains(text, part) <==> PartOf(part, text)
  {
    if Contains(text, part) {
      var i: nat :| i <= |text| && StandsAt(text, i, part);
      assert text == text[..i] + part + text[i + |part|..];
    }
    if PartOf(part, text) {
      var u, v :| text == u + part + v;
      assert StandsAt(text, |u|, part);
    }
  }

  predicate AllBlank(text: string) { forall i :: 0 <= i < |text| ==> IsBlank(text[i]) }

  predicate NoBlank(text: string) { forall i :: 0 <= i < |text| ==> !IsBlank(text[i]) }

  /** After blanks a word without any, up to a blank or the end; no word only in a text of blanks. */
  ghost predicate IsFirstWord(text: string, word: string) {
    exists before, after :: Splits(text, before, word, after)
  }

  predicate Splits(text: string, before: string, word: string, after: string) {
    && text == before + word + after && AllBlank(before) && NoBlank(word)
    && (after == "" || IsBlank(after[0])) && (word == "" ==> after == "")
  }

  lemma {:induction false} SplitOf(text: string) returns (before: string, after: string)
    ensures Splits(text, before, FirstWord(text), after)
  {
    if text == "" {
      before, after := "", "";
    } else if IsBlank(text[0]) {
      var rest;
      rest, after := SplitOf(text[1..]);
      before := [text[0]] + rest;
      assert text == [text[0]] + text[1..];
    } else {
      before := "";
      after := UpToBlankSplit(text);
    }
  }

  lemma {:induction false} UpToBlankSplit(text: string) returns (after: string)
    ensures text == UpToBlank(text) + after && NoBlank(UpToBlank(text)) && (after == "" || IsBlank(after[0]))
  {
    if text == "" || IsBlank(text[0]) {
      after := text;
    } else {
      after := UpToBlankSplit(text[1..]);
      assert text == [text[0]] + text[1..];
    }
  }

  lemma {:induction false} SplitIsUnique(text: string, before: string, word: string, after: string)
    requires Splits(text, before, word, after)
    ensures word == FirstWord(text)
    decreases |before|
  {
    if before != "" {
      assert text[0] == before[0] && text[1..] == before[1..] + word + after;
      SplitIsUnique(text[1..], before[1..], word, after);
    } else if word != "" {
      assert text == word + after && text[0] == word[0];
      WordIsUnique(text, word, after);
    }
  }

  lemma {:induction false} WordIsUnique(text: string, word: string, after: string)
    requires text == word + after && NoBlank(word) && (after == "" || IsBlank(after[0]))
    ensures UpToBlank(text) == word
  {
    if word == "" {
      assert text == after;
    } else {
      assert text[0] == word[0] && text[1..] == word[1..] + after;
      WordIsUnique(text[1..], word[1..], after);
    }
  }

  lemma FirstWordIff(text: string, word: string)
    ensures FirstWord(text) == word <==> IsFirstWord(text, word)
  {
    hide FirstWord;
    var before, after := SplitOf(text);
    if IsFirstWord(text, word) {
      var u, v :| Splits(text, u, word, v);
      SplitIsUnique(text, u, word, v);
    }
  }

  // ---- what follows a check ----

  /** The header's first word is the expected one, and the client takes the answer. */
  ghost predicate ToServe(e: Entry) {
    e.Checked? && e.taken && IsFirstWord(e.header, "client:" + e.key)
  }

  /** The header is long enough to be answered, and the client does not take the answer. */
  predicate ToAbort(e: Entry) {
    e.Checked? && !e.taken && |e.header| >= |"client:" + e.key|
  }

  ghost predicate Follows(e: Entry, next: Entry) {
    && (next.Served? <==> ToServe(e))
    && (ToAbort(e) ==> next.Aborted?)
    && (e.Checked? && !next.Served? && !next.Aborted? ==> (next.Polled? || next.Checked?) && next.key == e.key)
  }

  ghost predicate Chained(h: seq<Entry>) {
    && (h != [] ==> !h[0].Served?)
    && forall i :: 0 < i < |h| ==> Follows(h[i - 1], h[i])
  }

  /** A check that the history ends with goes on waiting for the same key. */
  ghost predicate Pending(s: State) {
    var h := s.history;
    h != [] && h[|h| - 1].Checked? ==>
      && !ToServe(h[|h| - 1]) && !ToAbort(h[|h| - 1])
      && (s.phase.Waiting? || s.phase.Accepting?) && s.matchkey == h[|h| - 1].key
  }

  ghost predicate Serving(s: State) { Chained(s.history) && Pending(s) }

  /** What may come next in any phase. */
  ghost predicate Extends(h: seq<Entry>, e: Entry) {
    if h == [] then !e.Served? else Follows(h[|h| - 1], e)
  }

  lemma ChainedGrows(h: seq<Entry>, e: Entry)
    requires Chained(h) && Extends(h, e)
    ensures Chained(h + [e])
  {
    hide Follows;
    var g := h + [e];
    forall i | 0 < i < |g| ensures Follows(g[i - 1], g[i]) {
      if i < |h| { assert g[i - 1] == h[i - 1] && g[i] == h[i]; }
    }
  }

  lemma AcceptedToServe(s: State, a: Answer)
    ensures var e := Checked(s.matchkey, s.open, a.text, a.taken);
            && (ToServe(e) <==> a.taken && Accepted(a.text, s.matchkey))
            && (ToAbort(e) <==> !a.taken && Compared(a.text, s.matchkey))
  {
    hide FirstWord, IsFirstWord;
    AcceptedIff(a.text, s.matchkey);
    FirstWordIff(a.text, CLIENT_HEADER + s.matchkey);
  }

  lemma AbortServes(c: Config, s: State)
    requires Chained(s.history) && Extends(s.history, Aborted)
    ensures Serving(Fail(c, s))
  {
    hide Chained, Follows;
    ChainedGrows(s.history, Aborted);
  }

  lemma RegisterServes(c: Config, s: State, key: string, ok: bool)
    requires Chained(s.history) && Extends(s.history, Issued(key))
    ensures Serving(Register(c, s, key, ok))
  {
    hide Chained, IsFirstWord, Fail;
    ChainedGrows(s.history, Issued(key));
    var t := Note(s.(matchkey := key), Issued(key));
    if ok { ChainedGrows(t.history, Registered(key)); } else { AbortServes(c, t); }
  }

  lemma CheckServes(c: Config, s: State, a: Answer)
    requires Serving(s) && s.phase.Accepting?
    ensures Serving(Check(c, s, a))
  {
    hide Chained, IsFirstWord, FirstWord, Compared, Begin;
    if !a.ok {
      AbortServes(c, s);
    } else {
      var e := Checked(s.matchkey, s.open, a.text, a.taken);
      var t := Note(s, e);
      AcceptedToServe(s, a);
      ChainedGrows(s.history, e);
      if ToAbort(e) {
        AbortServes(c, t);
      } else if ToServe(e) {
        ChainedGrows(t.history, Served);
        BeginServes(c, Note(t, Served));
      }
    }
  }

  lemma BeginServes(c: Config, s: State)
    requires Chained(s.history) && s.history != [] && !s.history[|s.history| - 1].Checked?
    ensures Serving(Begin(c, s))
  {
    hide Chained;
  }

  lemma StepServes(c: Config, s: State, a: Answer)
    requires Serving(s)
    ensures Serving(Step(c, s, a))
  {
    hide Chained, IsFirstWord, Register, Check, FirstFree, Contains, GivesUp, Fail;
    match s.phase
    case Connecting => if !a.ok { AbortServes(c, s); }
    case Reporting =>
      var r := FirstFree(c.key + ":", s.oldKeys, a.draws);
      if r.Free? { NotChecked(s, Issued(r.key)); RegisterServes(c, s, r.key, a.ok); }
    case Waiting =>
      if !a.ready {
        if !a.ok {
          AbortServes(c, s);
        } else {
          ChainedGrows(s.history, Polled(s.matchkey, Contains(a.text, s.matchkey), a.text));
        }
      }
    case Regenerating =>
      var r := FirstFree(c.key + ":", s.oldKeys, a.draws);
      if r.Free? {
        NotChecked(s, Retired(s.matchkey));
        ChainedGrows(s.history, Retired(s.matchkey));
        var t := Note(s, Retired(s.matchkey));
        RegisterServes(c, t, r.key, a.ok);
      }
    case Accepting => CheckServes(c, s, a);
  }

  lemma NotChecked(s: State, e: Entry)
    requires Serving(s) && (s.phase.Reporting? || s.phase.Regenerating?) && !e.Served?
    ensures Extends(s.history, e)
  {}

  // ---- polls ----

  /** A poll is about the key last registered, and finds it pending exactly when the answer has it somewhere. */
  ghost predicate PollsAreTold(h: seq<Entry>) {
    forall i :: 0 <= i < |h| ==>
      && (h[i].Polled? ==> LastRegistered(h[..i]) == [h[i].key] && (h[i].pending <==> PartOf(h[i].key, h[i].answer)))
      && (h[i].Retired? ==> LastRegistered(h[..i]) == [h[i].key])
  }

  lemma ToldGrows(h: seq<Entry>, e: Entry)
    requires PollsAreTold(h)
    requires e.Polled? ==> LastRegistered(h) == [e.key] && (e.pending <==> PartOf(e.key, e.answer))
    requires e.Retired? ==> LastRegistered(h) == [e.key]
    ensures PollsAreTold(h + [e])
  {
    hide LastRegistered, PartOf;
    var g := h + [e];
    forall i | 0 <= i < |g|
      ensures g[i].Polled? ==> LastRegistered(g[..i]) == [g[i].key] && (g[i].pending <==> PartOf(g[i].key, g[i].answer))
      ensures g[i].Retired? ==> LastRegistered(g[..i]) == [g[i].key]
    {
      assert g[..i] == h[..i];
      assert i == |h| ==> h[..i] == h;
    }
  }

  lemma RegisterTold(c: Config, s: State, key: string, ok: bool)
    requires PollsAreTold(s.history)
    ensures PollsAreTold(Register(c, s, key, ok).history)
  {
    hide PollsAreTold;
    ToldGrows(s.history, Issued(key));
    ToldGrows(s.history + [Issued(key)], Registered(key));
    ToldGrows(s.history + [Issued(key)], Aborted);
  }

  lemma StepTells(c: Config, s: State, a: Answer)
    requires Invariant(c, s) && PollsAreTold(s.history)
    ensures PollsAreTold(Step(c, s, a).history)
  {
    hide PollsAreTold, Good, LastRegistered, Register, FirstFree, Contains, GivesUp, Accepted, Compared;
    var h := s.history;
    ToldGrows(h, Aborted);
    match s.phase
    case Connecting =>
    case Reporting =>
      var r := FirstFree(c.key + ":", s.oldKeys, a.draws);
      if r.Free? { RegisterTold(c, s, r.key, a.ok); }
    case Waiting =>
      ContainsIff(a.text, s.matchkey);
      ToldGrows(h, Polled(s.matchkey, Contains(a.text, s.matchkey), a.text));
    case Regenerating =>
      var r := FirstFree(c.key + ":", s.oldKeys, a.draws);
      if r.Free? {
        ToldGrows(h, Retired(s.matchkey));
        RegisterTold(c, Note(s, Retired(s.matchkey)), r.key, a.ok);
      }
    case Accepting =>
      var e := Checked(s.matchkey, s.open, a.text, a.taken);
      ToldGrows(h, e);
      ToldGrows(h + [e], Served);
      ToldGrows(h + [e], Aborted);
  }

  // ---- safety over whole runs ----

  lemma {:induction false} RunsServe(c: Config, answers: seq<Answer>)
    ensures Serving(Run(c, Init(c), answers)) && PollsAreTold(Run(c, Init(c), answers).history)
    decreases |answers|
  {
    hide Serving, PollsAreTold, Step, Invariant;
    if answers == [] {
      ServingAtFirst(c);
    } else {
      var before := answers[..|answers| - 1];
      RunsServe(c, before);
      RunsKeep(c, before);
      StepServes(c, Run(c, Init(c), before), answers[|answers| - 1]);
      StepTells(c, Run(c, Init(c), before), answers[|answers| - 1]);
    }
  }

  lemma ServingAtFirst(c: Config)
    ensures Serving(Init(c)) && PollsAreTold(Init(c).history)
  {}

  /**
   In every run a client is served right after its header was checked, exactly when the header's first
   word is "client:" and the key last registered (the plain key without a tracker) and the client takes
   the answer. After any other check the next thing is an exception, which is all that can come when a
   client does not take its answer, or the same key is polled or checked again.
   */
  lemma ServedIff(c: Config, answers: seq<Answer>, i: nat)
    requires i < |Run(c, Init(c), answers).history|
    ensures var h := Run(c, Init(c), answers).history;
            && (h[i].Served? ==> i > 0 && h[i - 1].Checked?)
            && (h[i].Checked? ==>
                  && (if h[i].tracked then c.address != "" && LastRegistered(h[..i]) == [h[i].key]
                      else c.address == "" && h[i].key == c.key)
                  && (i + 1 < |h| && h[i + 1].Served? <==> h[i].taken && IsFirstWord(h[i].header, "client:" + h[i].key))
                  && (!h[i].taken && |h[i].header| >= |"client:" + h[i].key| ==> i + 1 < |h| && h[i + 1].Aborted?)
                  && (i + 1 < |h| && !h[i + 1].Served? && !h[i + 1].Aborted? ==>
                        (h[i + 1].Polled? || h[i + 1].Checked?) && h[i + 1].key == h[i].key))
  {
    hide Run, IsFirstWord, LastRegistered;
    RunsServe(c, answers);
    KeysAreSafe(c, answers);
    var h := Run(c, Init(c), answers).history;
    if i > 0 { assert Follows(h[i - 1], h[i]); }
    if i + 1 < |h| { assert Follows(h[i + 1 - 1], h[i + 1]); }
  }

  lemma {:induction false} UnmatchedAre(h: seq<Entry>, m: nat)
    requires 1 <= m <= Unmatched(h)
    ensures m <= |h| && h[|h| - m].Polled? && !h[|h| - m].pending
    ensures LastRegistered(h[..|h| - m]) == LastRegistered(h)
    decreases |h|
  {
    var n := |h| - 1;
    if m > 1 {
      UnmatchedAre(h[..n], m - 1);
      assert h[..n][..|h| - m] == h[..|h| - m];
    }
  }

  /**
   In every run a poll finds its key pending exactly when the tracker's answer has the key somewhere, and
   a key that is given up was missing from each of the last answers, as many as make it be given up.
   */
  lemma RetiredWereMissing(c: Config, answers: seq<Answer>, i: nat)
    requires c.ping >= 1 && i < |Run(c, Init(c), answers).history|
    ensures var h := Run(c, Init(c), answers).history;
            && (h[i].Polled? ==> (h[i].pending <==> PartOf(h[i].key, h[i].answer)))
            && (h[i].Retired? ==>
                  && i >= Patience(c.ping)
                  && forall j :: i - Patience(c.ping) <= j < i ==>
                       h[j].Polled? && h[j].key == h[i].key && !PartOf(h[i].key, h[j].answer))
  {
    hide Run, PartOf, LastRegistered, Unmatched, Patience;
    RunsServe(c, answers);
    KeysRetireOnTime(c, answers);
    var h := Run(c, Init(c), answers).history;
    if h[i].Retired? {
      assert Unmatched(h[..i]) == Patience(c.ping) by { assert Before(h, i) == Patience(c.ping); }
      PatiencePositive(c.ping);
      UnmatchedAre(h[..i], Patience(c.ping));
      forall j | i - Patience(c.ping) <= j < i
        ensures h[j].Polled? && h[j].key == h[i].key && !PartOf(h[i].key, h[j].answer)
      {
        UnmatchedAre(h[..i], i - j);
        assert h[..i][j] == h[j] && h[..i][..j] == h[..j];
      }
    }
  }

  /** So a key that stands in every answer since it was registered is not given up. */
  lemma PendingKeysStay(c: Config, answers: seq<Answer>, r: nat, i: nat)
    requires c.ping >= 1
    requires var h := Run(c, Init(c), answers).history;
             && r < i < |h| && h[r].Registered?
             && forall j :: r < j < i && h[j].Polled? && h[j].key == h[r].key ==> PartOf(h[r].key, h[j].answer)
    ensures Run(c, Init(c), answers).history[i] != Retired(Run(c, Init(c), answers).history[r].key)
  {
    hide Run, PartOf;
    var h := Run(c, Init(c), answers).history;
    RetiredWereMissing(c, answers, i);
    PatiencePositive(c.ping);
    assert h[i].Retired? ==> h[i - 1].Polled?;
  }

  // ---- the answers behind the entries ----

  /** Entry i of the history was written at answer j. */
  ghost predicate WrittenAt(c: Config, answers: seq<Answer>, i: nat, j: nat) {
    && j < |answers|
    && |Run(c, Init(c), answers[..j]).history| <= i < |Run(c, Init(c), answers[..j + 1]).history|
  }

  /** What entry e repeats of the answer it was written at. */
  predicate Repeats(e: Entry, a: Answer) {
    && (e.Polled? ==> !a.ready && a.ok && e.answer == a.text)
    && (e.Checked? ==> a.ok && e.header == a.text && e.taken == a.taken)
  }

  /** g is h and what was written at a. */
  ghost predicate WrittenOn(h: seq<Entry>, g: seq<Entry>, a: Answer) {
    |h| <= |g| && g[..|h|] == h && forall i :: |h| <= i < |g| ==> Repeats(g[i], a)
  }

  lemma WriteOn(h: seq<Entry>, g: seq<Entry>, e: Entry, a: Answer)
    requires WrittenOn(h, g, a) && Repeats(e, a)
    ensures WrittenOn(h, g + [e], a)
  {
    hide Repeats;
    assert (g + [e])[..|h|] == g[..|h|];
  }

  lemma RegisterRepeats(c: Config, h: seq<Entry>, s: State, key: string, ok: bool, a: Answer)
    requires WrittenOn(h, s.history, a)
    ensures WrittenOn(h, Register(c, s, key, ok).history, a)
  {
    hide WrittenOn;
    WriteOn(h, s.history, Issued(key), a);
    WriteOn(h, s.history + [Issued(key)], if ok then Registered(key) else Aborted, a);
  }

  lemma StepRepeats(c: Config, s: State, a: Answer)
    ensures WrittenOn(s.history, Step(c, s, a).history, a)
  {
    hide WrittenOn, Register, FirstFree, Contains, GivesUp, Accepted, Compared;
    var h := s.history;
    assert WrittenOn(h, h, a) by { NothingNew(h, a); }
    WriteOn(h, h, Aborted, a);
    match s.phase
    case Connecting =>
    case Reporting =>
      var r := FirstFree(c.key + ":", s.oldKeys, a.draws);
      if r.Free? { RegisterRepeats(c, h, s, r.key, a.ok, a); }
    case Waiting =>
      if !a.ready && a.ok { WriteOn(h, h, Polled(s.matchkey, Contains(a.text, s.matchkey), a.text), a); }
    case Regenerating =>
      var r := FirstFree(c.key + ":", s.oldKeys, a.draws);
      WriteOn(h, h, Retired(s.matchkey), a);
      if r.Free? { RegisterRepeats(c, h, Note(s, Retired(s.matchkey)), r.key, a.ok, a); }
    case Accepting =>
      if a.ok {
        var e := Checked(s.matchkey, s.open, a.text, a.taken);
        WriteOn(h, h, e, a);
        WriteOn(h, h + [e], Served, a);
        WriteOn(h, h + [e], Aborted, a);
      }
  }

  lemma NothingNew(h: seq<Entry>, a: Answer)
    ensures WrittenOn(h, h, a)
  {}

  /** The texts in the history are those received: each entry repeats the answer at which it was written. */
  lemma {:induction false} EntriesRepeatAnswers(c: Config, answers: seq<Answer>, i: nat) returns (j: nat)
    requires i < |Run(c, Init(c), answers).history|
    ensures WrittenAt(c, answers, i, j) && Repeats(Run(c, Init(c), answers).history[i], answers[j])
    decreases |answers|
  {
    hide Step;
    var n := |answers| - 1;
    if answers == [] {
      NothingWritten(c);
    } else {
      var before := Run(c, Init(c), answers[..n]);
      StepRepeats(c, before, answers[n]);
      if i < |before.history| {
        j := EntriesRepeatAnswers(c, answers[..n], i);
        assert answers[..n][..j] == answers[..j] && answers[..n][..j + 1] == answers[..j + 1];
      } else {
        j := n;
        assert answers[..n + 1] == answers;
      }
    }
  }

  lemma NothingWritten(c: Config)
    ensures Init(c).history == []
  {}

  // ---- a client is served ----

  lemma {:induction false} RunOn(c: Config, s: State, first: seq<Answer>, then_: seq<Answer>)
    ensures Run(c, s, first + then_) == Run(c, Run(c, s, first), then_)
    decreases |then_|
  {
    hide Step;
    if then_ == [] {
      assert first + then_ == first;
    } else {
      var n := |then_| - 1;
      RunOn(c, s, first, then_[..n]);
      assert (first + then_)[..|first| + n] == first + then_[..n];
    }
  }

  lemma RunOne(c: Config, s: State, a: Answer)
    ensures Run(c, s, [a]) == Step(c, s, a)
  {
    hide Step;
    assert [a][..0] == [];
  }

  /** Polls that come to nothing but find the key pending. */
  ghost predicate FindsPending(key: string, idle: seq<Answer>) {
    forall i :: 0 <= i < |idle| ==> !idle[i].ready && idle[i].ok && PartOf(key, idle[i].text)
  }

  function PollEntries(key: string, idle: seq<Answer>): seq<Entry> {
    if idle == [] then []
    else PollEntries(key, idle[..|idle| - 1]) + [Polled(key, true, idle[|idle| - 1].text)]
  }

  lemma {:induction false} KeyWaits(c: Config, s: State, idle: seq<Answer>)
    requires s.phase.Waiting? && s.count == 0 && FindsPending(s.matchkey, idle)
    ensures Run(c, s, idle) ==
            s.(oldKeys := s.oldKeys + (if idle == [] then {} else {s.matchkey}),
               history := s.history + PollEntries(s.matchkey, idle))
    decreases |idle|
  {
    hide Contains;
    if idle == [] {
      assert s.history + PollEntries(s.matchkey, idle) == s.history && s.oldKeys + {} == s.oldKeys;
    } else {
      var n := |idle| - 1;
      KeyWaits(c, s, idle[..n]);
      ContainsIff(idle[n].text, s.matchkey);
      assert s.history + PollEntries(s.matchkey, idle)
          == s.history + PollEntries(s.matchkey, idle[..n]) + [Polled(s.matchkey, true, idle[n].text)];
      assert s.oldKeys + {s.matchkey} + {s.matchkey} == s.oldKeys + {s.matchkey};
    }
  }

  /** A client that is there and sends the expected word. */
  lemma ClientIsServed(c: Config, s: State, ready: Answer, hello: Answer)
    requires s.phase.Waiting? && s.open && ready.ready && hello.ok && hello.taken
    requires IsFirstWord(hello.text, "client:" + s.matchkey)
    ensures Run(c, s, [ready, hello]) ==
            State(Reporting, true, "", s.oldKeys, 0,
                  s.history + [Checked(s.matchkey, true, hello.text, true), Served])
  {
    hide Run, FirstWord, IsFirstWord;
    RunOn(c, s, [ready], [hello]);
    RunOne(c, s, ready);
    RunOne(c, s.(phase := Accepting, count := 0), hello);
    assert [ready] + [hello] == [ready, hello];
    AcceptedToServe(s, hello);
    var e := Checked(s.matchkey, true, hello.text, true);
    assert s.history + [e] + [Served] == s.history + [e, Served];
  }

  /**
   From the start: connect, draw a key and register it, find it pending in any number of polls, and serve
   the client that comes with it. Nothing else is written.
   */
  lemma ServedFromTheStart(c: Config, connect: Answer, drawn: Answer, idle: seq<Answer>, ready: Answer, hello: Answer)
    requires c.address != "" && connect.ok && drawn.ok && drawn.draws != []
    requires ready.ready && hello.ok && hello.taken
    requires var key := c.key + ":" + drawn.draws[0];
             FindsPending(key, idle) && IsFirstWord(hello.text, "client:" + key)
    ensures var key := c.key + ":" + drawn.draws[0];
            Run(c, Init(c), [connect, drawn] + idle + [ready, hello]).history ==
            [Issued(key), Registered(key)] + PollEntries(key, idle) + [Checked(key, true, hello.text, true), Served]
  {
    hide Run, IsFirstWord, PollEntries, FindsPending;
    var key := c.key + ":" + drawn.draws[0];
    var registered := State(Waiting, true, key, {}, 0, [Issued(key), Registered(key)]);
    RunOn(c, Init(c), [connect], [drawn]);
    RunOne(c, Init(c), connect);
    RunOne(c, Step(c, Init(c), connect), drawn);
    assert [connect] + [drawn] == [connect, drawn];
    assert Run(c, Init(c), [connect, drawn]) == registered by { Registering(c, connect, drawn); }
    RunOn(c, Init(c), [connect, drawn], idle);
    KeyWaits(c, registered, idle);
    RunOn(c, Init(c), [connect, drawn] + idle, [ready, hello]);
    ClientIsServed(c, Run(c, registered, idle), ready, hello);
  }

  lemma Registering(c: Config, connect: Answer, drawn: Answer)
    requires c.address != "" && connect.ok && drawn.ok && drawn.draws != []
    ensures var key := c.key + ":" + drawn.draws[0];
            Step(c, Step(c, Init(c), connect), drawn) == State(Waiting, true, key, {}, 0, [Issued(key), Registered(key)])
  {
    var key := c.key + ":" + drawn.draws[0];
    assert [] + [Issued(key)] + [Registered(key)] == [Issued(key), Registered(key)];
  }

  /** Without a tracker the plain key serves. */
  lemma ServedPlainly(c: Config, hello: Answer)
    requires c.address == "" && hello.ok && hello.taken && IsFirstWord(hello.text, "client:" + c.key)
    ensures Run(c, Init(c), [hello]).history == [Checked(c.key, false, hello.text, true), Served]
  {
    hide Run, FirstWord, IsFirstWord;
    RunOne(c, Init(c), hello);
    AcceptedToServe(Init(c), hello);
    var e := Checked(c.key, false, hello.text, true);
    assert [] + [e] + [Served] == [e, Served];
  }
}
