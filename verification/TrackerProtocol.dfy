/**
 apps/cpp_rpc/rpc_tracker_client.h and apps/cpp_rpc/rpc_server.cc: the life of match keys, as a machine
 that takes one step for every answer of its surroundings.
 */
module TrackerProtocol {

  /** The tracker's address (empty for none), the device key, and the seconds between polls. */
  datatype Config = Config(address: string, key: string, ping: nat)

  const UNMATCH_TIMEOUT := 4
  const CLIENT_HEADER := "client:"

  /**
   What the surroundings answer: whether the exchange succeeds (else an exception is thrown), whether a
   client is connecting, the text received, the random numbers drawn, as text, and whether a client takes
   the verdict on its header (else an exception is thrown).
   */
  datatype Answer = Answer(ok: bool, ready: bool, text: string, draws: seq<string>, taken: bool)

  /** Where the server is: what it asks of its surroundings next. */
  datatype Phase = Connecting | Reporting | Waiting | Regenerating | Accepting

  datatype Entry =
    | Issued(key: string)                                                   // drawn at random to be the match key
    | Registered(key: string)                                               // put to the tracker, and acknowledged
    | Polled(key: string, pending: bool, answer: string)                    // still pending, by the tracker's answer?
    | Retired(key: string)                                                  // given up for a new one
    | Checked(key: string, tracked: bool, header: string, taken: bool)      // a client's header against a key
    | Served
    | Aborted                                                               // an exception ended the round

  datatype State = State(
    phase: Phase, open: bool, matchkey: string, oldKeys: set<string>, count: nat, history: seq<Entry>)

  // ---- the parts ----

  datatype Drawn = NoneFree | Free(key: string)

  /** The first draw whose key is not in use. */
  function FirstFree(prefix: string, used: set<string>, draws: seq<string>): (r: Drawn)
    ensures r.Free? ==> r.key !in used
  {
    if draws == [] then NoneFree
    else if prefix + draws[0] !in used then Free(prefix + draws[0])
    else FirstFree(prefix, used, draws[1..])
  }

  predicate StandsAt(text: string, i: nat, part: string) {
    i + |part| <= |text| && text[i..i + |part|] == part
  }

  predicate Contains(text: string, part: string) { exists i: nat :: i <= |text| && StandsAt(text, i, part) }

  /** The key has been missing from the tracker for so many polls that it is given up. */
  predicate GivesUp(ping: nat, count: nat) { count * ping > UNMATCH_TIMEOUT + ping }

  predicate IsBlank(ch: char) { ch == ' ' || '\t' <= ch <= '\r' }

  /** The first word of a text. */
  function FirstWord(text: string): string {
    if text == [] then ""
    else if IsBlank(text[0]) then FirstWord(text[1..])
    else UpToBlank(text)
  }

  function UpToBlank(text: string): (r: string)
    ensures |r| <= |text|
  {
    if text == [] || IsBlank(text[0]) then "" else [text[0]] + UpToBlank(text[1..])
  }

  /** A client's header is compared, and answered, if it is long enough. */
  predicate Compared(text: string, matchkey: string) { |text| >= |CLIENT_HEADER + matchkey| }

  /** A client's header is accepted: long enough, and its first word is the expected one. */
  predicate Accepted(text: string, matchkey: string) {
    Compared(text, matchkey) && FirstWord(text) == CLIENT_HEADER + matchkey
  }

  // ---- the machine ----

  /** A round starts; what asks nothing of the surroundings is passed over. */
  function Begin(c: Config, s: State): State {
    var t := s.(matchkey := "", count := 0);
    if c.address != "" && !t.open then t.(phase := Connecting) else Connected(c, t)
  }

  function Connected(c: Config, s: State): State {
    if s.open then s.(phase := Reporting) else Wait(s.(matchkey := c.key))
  }

  function Wait(s: State): State {
    s.(phase := if s.open then Waiting else Accepting, count := 0)
  }

  /** An exception: the tracker is closed and a new round starts. */
  function Fail(c: Config, s: State): State { Begin(c, Note(s.(open := false), Aborted)) }

  function Note(s: State, entry: Entry): State { s.(history := s.history + [entry]) }

  function Init(c: Config): State { Begin(c, State(Connecting, false, "", {}, 0, [])) }

  function Register(c: Config, s: State, key: string, ok: bool): State {
    var t := Note(s.(matchkey := key), Issued(key));
    if ok then Wait(Note(t, Registered(key))) else Fail(c, t)
  }

  function Poll(c: Config, s: State, a: Answer): State {
    if a.ready then s.(phase := Accepting, count := 0)
    else if !a.ok then Fail(c, s)
    else
      var pending := Contains(a.text, s.matchkey);
      var count := if pending then 0 else s.count + 1;
      Note(s, Polled(s.matchkey, pending, a.text)).(
        oldKeys := s.oldKeys + {s.matchkey},
        count := count,
        phase := if GivesUp(c.ping, count) then Regenerating else Waiting)
  }

  function Check(c: Config, s: State, a: Answer): State {
    if !a.ok then Fail(c, s)
    else
      var t := Note(s, Checked(s.matchkey, s.open, a.text, a.taken));
      if Compared(a.text, s.matchkey) && !a.taken then Fail(c, t)
      else if Accepted(a.text, s.matchkey) then Begin(c, Note(t, Served))
      else Wait(t)
  }

  function Step(c: Config, s: State, a: Answer): State {
    match s.phase
    case Connecting => if a.ok then Connected(c, s.(open := true)) else Fail(c, s)
    case Reporting =>
      (match FirstFree(c.key + ":", s.oldKeys, a.draws)
       case NoneFree => s
       case Free(key) => Register(c, s, key, a.ok))
    case Waiting => Poll(c, s, a)
    case Regenerating =>
      (match FirstFree(c.key + ":", s.oldKeys, a.draws)
       case NoneFree => s
       case Free(key) => Register(c, Note(s, Retired(s.matchkey)), key, a.ok))
    case Accepting => Check(c, s, a)
  }

  function Run(c: Config, s: State, answers: seq<Answer>): State {
    if answers == [] then s else Step(c, Run(c, s, answers[..|answers| - 1]), answers[|answers| - 1])
  }

  // ---- what every run keeps ----

  /** The key last registered, if any. */
  function LastRegistered(h: seq<Entry>): seq<string> {
    if h == [] then []
    else if h[|h| - 1].Registered? then [h[|h| - 1].key]
    else LastRegistered(h[..|h| - 1])
  }

  /** Every check compared with the key last registered, or with the plain key where no tracker is used. */
  ghost predicate ChecksAreCurrent(c: Config, h: seq<Entry>) {
    forall i :: 0 <= i < |h| && h[i].Checked? ==>
      (if h[i].tracked then c.address != "" && LastRegistered(h[..i]) == [h[i].key]
       else c.address == "" && h[i].key == c.key)
  }

  /** No key is drawn again after a poll found its client missing; retired keys have been polled. */
  ghost predicate PolledKeysStayOld(h: seq<Entry>) {
    forall i, j :: 0 <= i < j < |h| && h[i].Polled? && h[j].Issued? ==> h[i].key != h[j].key
  }

  ghost predicate RetiredWerePolled(h: seq<Entry>) {
    forall i :: 0 <= i < |h| && h[i].Retired? ==> exists j :: 0 <= j < i && h[j].Polled? && h[j].key == h[i].key
  }

  /** The keys kept from being drawn are those that a poll has seen. */
  ghost predicate KeysOf(oldKeys: set<string>, h: seq<Entry>) {
    && (forall i :: 0 <= i < |h| && h[i].Polled? ==> h[i].key in oldKeys)
    && (forall key :: key in oldKeys ==> exists i :: 0 <= i < |h| && h[i].Polled? && h[i].key == key)
  }

  ghost predicate Good(c: Config, oldKeys: set<string>, h: seq<Entry>) {
    KeysOf(oldKeys, h) && ChecksAreCurrent(c, h) && PolledKeysStayOld(h) && RetiredWerePolled(h)
  }

  /** The machine is open to the tracker exactly when it has one and is not connecting. */
  predicate Placed(c: Config, s: State) {
    match s.phase
    case Connecting => !s.open && c.address != ""
    case Accepting => s.open <==> c.address != ""
    case _ => s.open && c.address != ""
  }

  /** The match key in hand is the key last registered, or the plain key. */
  predicate Current(c: Config, s: State) {
    && (s.phase.Waiting? || s.phase.Regenerating? || s.phase.Accepting? ==>
          if s.open then LastRegistered(s.history) == [s.matchkey] else s.matchkey == c.key)
    && (s.phase.Regenerating? ==> s.matchkey in s.oldKeys)
  }

  ghost predicate Invariant(c: Config, s: State) {
    Placed(c, s) && Current(c, s) && Good(c, s.oldKeys, s.history)
  }

  // ---- one entry more ----

  lemma LastRegisteredGrows(h: seq<Entry>, e: Entry)
    ensures LastRegistered(h + [e]) == if e.Registered? then [e.key] else LastRegistered(h)
  {
    assert (h + [e])[..|h|] == h;
  }

  lemma ChecksGrow(c: Config, h: seq<Entry>, e: Entry)
    requires ChecksAreCurrent(c, h)
    requires e.Checked? ==> if e.tracked then c.address != "" && LastRegistered(h) == [e.key]
                            else c.address == "" && e.key == c.key
    ensures ChecksAreCurrent(c, h + [e])
  {
    hide LastRegistered;
    var g := h + [e];
    forall i | 0 <= i < |g| && g[i].Checked?
      ensures if g[i].tracked then c.address != "" && LastRegistered(g[..i]) == [g[i].key]
              else c.address == "" && g[i].key == c.key
    {
      assert g[..i] == h[..i];
      assert i == |h| ==> h[..i] == h;
    }
  }

  lemma GoodGrows(c: Config, oldKeys: set<string>, h: seq<Entry>, e: Entry)
    requires Good(c, oldKeys, h)
    requires e.Checked? ==> if e.tracked then c.address != "" && LastRegistered(h) == [e.key]
                            else c.address == "" && e.key == c.key
    requires e.Issued? ==> e.key !in oldKeys
    requires e.Retired? ==> e.key in oldKeys
    ensures Good(c, if e.Polled? then oldKeys + {e.key} else oldKeys, h + [e])
  {
    hide LastRegistered, ChecksAreCurrent;
    ChecksGrow(c, h, e);
    var g := h + [e];
    assert forall i :: 0 <= i < |h| ==> g[i] == h[i];
    assert g[|h|] == e;
    forall i | 0 <= i < |g| && g[i].Retired?
      ensures exists j :: 0 <= j < i && g[j].Polled? && g[j].key == g[i].key
    {
      if i < |h| {
        var j :| 0 <= j < i && h[j].Polled? && h[j].key == h[i].key;
        assert g[j].Polled? && g[j].key == g[i].key;
      } else {
        var j :| 0 <= j < |h| && h[j].Polled? && h[j].key == e.key;
        assert g[j].Polled? && g[j].key == g[i].key;
      }
    }
    KeysGrow(oldKeys, h, e);
  }

  lemma KeysGrow(oldKeys: set<string>, h: seq<Entry>, e: Entry)
    requires KeysOf(oldKeys, h)
    ensures KeysOf(if e.Polled? then oldKeys + {e.key} else oldKeys, h + [e])
  {
    var g, keys := h + [e], if e.Polled? then oldKeys + {e.key} else oldKeys;
    assert g[|h|] == e;
    forall key | key in keys
      ensures exists i :: 0 <= i < |g| && g[i].Polled? && g[i].key == key
    {
      if key in oldKeys {
        var i :| 0 <= i < |h| && h[i].Polled? && h[i].key == key;
        assert g[i].Polled? && g[i].key == key;
      }
    }
  }

  // ---- every step keeps the invariant ----

  lemma BeginKeeps(c: Config, s: State)
    requires Good(c, s.oldKeys, s.history) && (s.open ==> c.address != "")
    ensures Invariant(c, Begin(c, s))
  {
    hide Good;
  }

  lemma FailKeeps(c: Config, s: State)
    requires Good(c, s.oldKeys, s.history)
    ensures Invariant(c, Fail(c, s))
  {
    hide Good, Begin;
    GoodGrows(c, s.oldKeys, s.history, Aborted);
    BeginKeeps(c, Note(s.(open := false), Aborted));
  }

  lemma RegisterKeeps(c: Config, s: State, key: string, ok: bool)
    requires Good(c, s.oldKeys, s.history) && s.open && c.address != "" && key !in s.oldKeys
    ensures Invariant(c, Register(c, s, key, ok))
  {
    hide Good, LastRegistered, Begin;
    var t := Note(s.(matchkey := key), Issued(key));
    GoodGrows(c, s.oldKeys, s.history, Issued(key));
    GoodGrows(c, s.oldKeys, t.history, Registered(key));
    LastRegisteredGrows(t.history, Registered(key));
    if !ok { FailKeeps(c, t); }
  }

  lemma PollKeeps(c: Config, s: State, a: Answer)
    requires Invariant(c, s) && s.phase.Waiting?
    ensures Invariant(c, Poll(c, s, a))
  {
    hide Good, LastRegistered, Begin, Contains, GivesUp;
    if !a.ready {
      if !a.ok {
        FailKeeps(c, s);
      } else {
        var e := Polled(s.matchkey, Contains(a.text, s.matchkey), a.text);
        GoodGrows(c, s.oldKeys, s.history, e);
        LastRegisteredGrows(s.history, e);
      }
    }
  }

  lemma CheckKeeps(c: Config, s: State, a: Answer)
    requires Invariant(c, s) && s.phase.Accepting?
    ensures Invariant(c, Check(c, s, a))
  {
    hide Good, LastRegistered, Begin, Accepted, Compared;
    if !a.ok {
      FailKeeps(c, s);
    } else {
      var e := Checked(s.matchkey, s.open, a.text, a.taken);
      var t := Note(s, e);
      GoodGrows(c, s.oldKeys, s.history, e);
      LastRegisteredGrows(s.history, e);
      GoodGrows(c, s.oldKeys, t.history, Served);
      BeginKeeps(c, Note(t, Served));
      FailKeeps(c, t);
    }
  }

  lemma StepKeeps(c: Config, s: State, a: Answer)
    requires Invariant(c, s)
    ensures Invariant(c, Step(c, s, a))
  {
    hide Good, LastRegistered, Begin, Register, Poll, Check, FirstFree;
    match s.phase
    case Connecting => if !a.ok { FailKeeps(c, s); }
    case Reporting =>
      var r := FirstFree(c.key + ":", s.oldKeys, a.draws);
      if r.Free? { RegisterKeeps(c, s, r.key, a.ok); }
    case Waiting => PollKeeps(c, s, a);
    case Regenerating =>
      var r := FirstFree(c.key + ":", s.oldKeys, a.draws);
      if r.Free? {
        GoodGrows(c, s.oldKeys, s.history, Retired(s.matchkey));
        RegisterKeeps(c, Note(s, Retired(s.matchkey)), r.key, a.ok);
      }
    case Accepting => CheckKeeps(c, s, a);
  }

  lemma {:induction false} RunKeeps(c: Config, s: State, answers: seq<Answer>)
    requires Invariant(c, s)
    ensures Invariant(c, Run(c, s, answers))
  {
    hide Invariant, Step;
    if answers != [] {
      RunKeeps(c, s, answers[..|answers| - 1]);
      StepKeeps(c, Run(c, s, answers[..|answers| - 1]), answers[|answers| - 1]);
    }
  }

  // ---- safety over whole runs ----

  /**
   In every run: what a client is checked against is the key last registered, or the plain key where
   there is no tracker; and a key given up is never issued again.
   */
  lemma KeysAreSafe(c: Config, answers: seq<Answer>)
    ensures var h := Run(c, Init(c), answers).history;
            && ChecksAreCurrent(c, h)
            && PolledKeysStayOld(h)
            && (forall i, j :: 0 <= i < j < |h| && h[i].Retired? && h[j].Issued? ==> h[i].key != h[j].key)
  {
    hide Run;
    RunsKeep(c, answers);
    var h := Run(c, Init(c), answers).history;
    forall i, j | 0 <= i < j < |h| && h[i].Retired? && h[j].Issued?
      ensures h[i].key != h[j].key
    {
      var k :| 0 <= k < i && h[k].Polled? && h[k].key == h[i].key;
    }
  }

  /** In every run, a draw is taken exactly when no poll has seen the key it makes. */
  lemma DrawnIffNeverPolled(c: Config, answers: seq<Answer>, draw: string)
    ensures var s := Run(c, Init(c), answers);
            var key := c.key + ":" + draw;
            FirstFree(c.key + ":", s.oldKeys, [draw]) == Free(key) <==>
            forall i :: 0 <= i < |s.history| && s.history[i].Polled? ==> s.history[i].key != key
  {
    hide Run;
    RunsKeep(c, answers);
    assert [draw][1..] == [];
  }

  lemma RunsKeep(c: Config, answers: seq<Answer>)
    ensures Invariant(c, Run(c, Init(c), answers))
  {
    hide Run;
    var s := State(Connecting, false, "", {}, 0, []);
    assert Good(c, s.oldKeys, s.history);
    BeginKeeps(c, s);
    RunKeeps(c, Init(c), answers);
  }

  lemma RunStep(c: Config, s: State, answers: seq<Answer>, a: Answer)
    ensures Run(c, s, answers + [a]) == Step(c, Run(c, s, answers), a)
  {
    assert (answers + [a])[..|answers|] == answers;
  }

  /** So a key whose client came before the first poll can be issued a second time. */
  lemma KeyIssuedTwice()
    ensures var c, yes := Config("tracker", "k", 2), Answer(true, false, "", ["1"], true);
            var answers := [yes, yes, yes.(ready := true), yes.(text := "client:k:1"), yes];
            Run(c, Init(c), answers).history ==
            [Issued("k:1"), Registered("k:1"), Checked("k:1", true, "client:k:1", true), Served, Issued("k:1"), Registered("k:1")]
  {
    hide Run, FirstFree, Accepted, Compared, Contains, GivesUp;
    var c, yes := Config("tracker", "k", 2), Answer(true, false, "", ["1"], true);
    var client, header := yes.(ready := true), yes.(text := "client:k:1");
    var served := [Issued("k:1"), Registered("k:1"), Checked("k:1", true, "client:k:1", true), Served];
    OneDraw("k" + ":", {}, "1");
    HeaderMatches("k:1");
    assert CLIENT_HEADER + "k:1" == "client:k:1" && "k" + ":" + "1" == "k:1";
    RunNone(c, Init(c));
    RunStep(c, Init(c), [], yes);
    RunStep(c, Init(c), [yes], yes);
    assert [] + [yes] == [yes] && [yes] + [yes] == [yes, yes];
    assert Run(c, Init(c), [yes, yes]) == State(Waiting, true, "k:1", {}, 0, served[..2]);
    RunStep(c, Init(c), [yes, yes], client);
    RunStep(c, Init(c), [yes, yes, client], header);
    assert [yes, yes] + [client] == [yes, yes, client] && [yes, yes, client] + [header] == [yes, yes, client, header];
    assert served[..2] + [served[2]] + [Served] == served;
    assert Run(c, Init(c), [yes, yes, client, header]) == State(Reporting, true, "", {}, 0, served);
    RunStep(c, Init(c), [yes, yes, client, header], yes);
    assert [yes, yes, client, header] + [yes] == [yes, yes, client, header, yes];
  }

  lemma RunNone(c: Config, s: State)
    ensures Run(c, s, []) == s
  {}

  lemma OneDraw(prefix: string, used: set<string>, draw: string)
    requires prefix + draw !in used
    ensures FirstFree(prefix, used, [draw]) == Free(prefix + draw)
  {}

  // ---- headers ----

  lemma {:induction false} WordOfPlain(text: string)
    requires forall i :: 0 <= i < |text| ==> !IsBlank(text[i])
    ensures UpToBlank(text) == text
  {
    if text != [] { WordOfPlain(text[1..]); }
  }

  lemma {:induction false} WordsAreUnblank(text: string)
    ensures forall i :: 0 <= i < |FirstWord(text)| ==> !IsBlank(FirstWord(text)[i])
    ensures |FirstWord(text)| <= |text|
  {
    if text != [] {
      if IsBlank(text[0]) { WordsAreUnblank(text[1..]); } else { PrefixIsUnblank(text); }
    }
  }

  lemma {:induction false} PrefixIsUnblank(text: string)
    ensures forall i :: 0 <= i < |UpToBlank(text)| ==> !IsBlank(UpToBlank(text)[i])
  {
    if text != [] && !IsBlank(text[0]) { PrefixIsUnblank(text[1..]); }
  }

  lemma HeaderMatches(matchkey: string)
    requires forall i :: 0 <= i < |matchkey| ==> !IsBlank(matchkey[i])
    ensures Accepted(CLIENT_HEADER + matchkey, matchkey)
  {
    WordOfPlain(CLIENT_HEADER + matchkey);
  }

  /**
   The length test of a header changes nothing; and a match key can be matched by some client exactly
   when it has no blank in it.
   */
  lemma AcceptedIff(text: string, matchkey: string)
    ensures Accepted(text, matchkey) <==> FirstWord(text) == CLIENT_HEADER + matchkey
    ensures (exists i :: 0 <= i < |matchkey| && IsBlank(matchkey[i])) ==> !Accepted(text, matchkey)
    ensures (forall i :: 0 <= i < |matchkey| ==> !IsBlank(matchkey[i])) ==> Accepted(CLIENT_HEADER + matchkey, matchkey)
  {
    WordsAreUnblank(text);
    if Accepted(text, matchkey) {
      forall i | 0 <= i < |matchkey| ensures !IsBlank(matchkey[i]) {
        assert FirstWord(text)[|CLIENT_HEADER| + i] == matchkey[i];
      }
    }
    if forall i :: 0 <= i < |matchkey| ==> !IsBlank(matchkey[i]) { HeaderMatches(matchkey); }
  }
}
