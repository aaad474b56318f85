/**
 The code of apps/cpp_rpc/rpc_tracker_client.h and of the accept loop of apps/cpp_rpc/rpc_server.cc,
 step by step against the machine of TrackerProtocol.
 */
module TrackerClients {
  import opened TrackerProtocol

  /** How a method ends; `Blocked` when the surroundings have answered all they will. */
  datatype Control = Go | Blocked | Threw

  /** The surroundings: they answer in turn, and the machine takes a step for each answer. */
  class Surroundings {
    const config: Config
    const answers: seq<Answer>
    var at: nat
    ghost var state: State

    constructor (config: Config, answers: seq<Answer>)
      ensures Valid() && this.config == config && this.answers == answers && at == 0 && state == Init(config)
    {
      this.config, this.answers, at, state := config, answers, 0, Init(config);
      new;
      RunNone(config, Init(config));
    }

    ghost predicate Valid()
      reads this
    {
      at <= |answers| && state == Run(config, Init(config), answers[..at])
    }

    method Ask() returns (a: Answer)
      requires Valid() && at < |answers|
      modifies this
      ensures Valid() && at == old(at) + 1
      ensures a == answers[old(at)] && state == Step(config, old(state), a)
    {
      hide Step, Run;
      a := answers[at];
      RunStep(config, Init(config), answers[..at], a);
      assert answers[..at + 1] == answers[..at] + [a];
      state := Step(config, state, a);
      at := at + 1;
    }
  }

  class TrackerClient {
    const config: Config
    var open: bool
    var oldKeys: set<string>
    ghost var history: seq<Entry>

    constructor (config: Config)
      ensures this.config == config && !open && oldKeys == {} && history == []
    {
      this.config, open, oldKeys, history := config, false, {}, [];
    }

    /** The machine's state with this client's fields. */
    ghost function At(phase: Phase, matchkey: string, count: nat): State
      reads this
    {
      State(phase, open, matchkey, oldKeys, count, history)
    }

    /** The machine stands where this client does, up to the phase. */
    ghost predicate Mirrors(world: Surroundings)
      reads this, world
    {
      world.state.oldKeys == oldKeys && world.state.history == history
    }

    method TryConnect(world: Surroundings) returns (r: Control)
      requires world.Valid() && world.config == config
      requires world.state == Begin(config, At(Connecting, "", 0))
      modifies this, world
      ensures world.Valid() && oldKeys == old(oldKeys) && history == old(history) && world.at >= old(world.at)
      ensures r.Go? ==> world.state == Connected(config, At(Connecting, "", 0))
      ensures r.Threw? ==> world.at > old(world.at) && world.state == Fail(config, At(Connecting, "", 0))
      ensures r.Blocked? ==> world.at == |world.answers| && Mirrors(world)
    {
      if config.address != "" && !open {
        if world.at == |world.answers| {
          return Blocked;
        }
        var a := world.Ask();
        if !a.ok {
          return Threw;
        }
        open := true;
      }
      return Go;
    }

    /** What the handler of an exception does. */
    method Close()
      modifies this
      ensures !open && oldKeys == old(oldKeys) && history == old(history) + [Aborted]
    {
      open := false;
      history := history + [Aborted];
    }

    /** The first random key not in the set; the same answer then says how registering it ends. */
    method RandomKey(world: Surroundings, prefix: string) returns (r: Control, key: string, ok: bool)
      requires world.Valid() && prefix == world.config.key + ":" && world.state.oldKeys == oldKeys
      requires world.state.phase.Reporting? || world.state.phase.Regenerating?
      modifies world
      ensures world.Valid() && world.at >= old(world.at) && !r.Threw?
      ensures r.Go? ==>
                && key !in oldKeys && world.at > old(world.at)
                && world.state == Register(world.config, Drawing(old(world.state)), key, ok)
      ensures r.Blocked? ==> world.at == |world.answers| && world.state == old(world.state)
    {
      hide Register, Poll, Check, Connected, Begin, Run;
      key, ok := "", false;
      while world.at < |world.answers|
        invariant world.Valid() && world.at >= old(world.at) && world.state == old(world.state)
      {
        var a := world.Ask();
        var i := 0;
        while i < |a.draws|
          invariant 0 <= i <= |a.draws|
          invariant FirstFree(prefix, oldKeys, a.draws) == FirstFree(prefix, oldKeys, a.draws[i..])
        {
          key := prefix + a.draws[i];
          if key !in oldKeys {
            return Go, key, a.ok;
          }
          assert a.draws[i..][1..] == a.draws[i + 1..];
          i := i + 1;
        }
      }
      return Blocked, key, ok;
    }

    method ReportResourceAndGetKey(world: Surroundings) returns (r: Control, matchkey: string)
      requires world.Valid() && world.config == config
      requires world.state == Connected(config, At(Connecting, "", 0))
      modifies this, world
      ensures world.Valid() && oldKeys == old(oldKeys) && open == old(open) && world.at >= old(world.at)
      ensures r.Go? ==> world.state == Wait(At(Connecting, matchkey, 0))
      ensures r.Threw? ==> world.at > old(world.at) && world.state == Fail(config, At(Connecting, "", 0))
      ensures r.Blocked? ==> world.at == |world.answers| && Mirrors(world)
    {
      hide Step, Run;
      if open {
        var ok;
        r, matchkey, ok := RandomKey(world, config.key + ":");
        if r.Blocked? {
          return;
        }
        history := history + [Issued(matchkey)];
        if !ok {
          return Threw, matchkey;
        }
        history := history + [Registered(matchkey)];
      } else {
        matchkey := config.key;
      }
      r := Go;
    }

    /** A poll that timed out: asks which keys are pending. */
    method Idle(world: Surroundings, ghost before: State, a: Answer, matchkey: string, count: nat)
      returns (threw: bool, newCount: nat)
      requires world.config == config && before == At(Waiting, matchkey, count) && !a.ready
      requires world.state == Poll(config, before, a)
      modifies this
      ensures open == old(open)
      ensures threw ==> world.state == Fail(config, At(Connecting, "", 0))
      ensures !threw ==>
                world.state == At(if GivesUp(config.ping, newCount) then Regenerating else Waiting, matchkey, newCount)
    {
      hide Contains;
      if !a.ok {
        return true, count;
      }
      oldKeys := oldKeys + {matchkey};
      var pending := Contains(a.text, matchkey);
      history := history + [Polled(matchkey, pending, a.text)];
      return false, if pending then 0 else count + 1;
    }

    method WaitConnectionAndUpdateKey(world: Surroundings, current: string) returns (r: Control, matchkey: string)
      requires world.Valid() && world.config == config
      requires world.state == Wait(At(Connecting, current, 0))
      modifies this, world
      ensures world.Valid() && open == old(open) && world.at >= old(world.at)
      ensures r.Go? ==> world.state == At(Accepting, matchkey, 0)
      ensures r.Threw? ==> world.at > old(world.at) && world.state == Fail(config, At(Connecting, "", 0))
      ensures r.Blocked? ==> world.at == |world.answers| && Mirrors(world)
    {
      hide Run, Contains, GivesUp;
      var count := 0;
      matchkey := current;
      while open
        invariant world.Valid() && open == old(open) && world.at >= old(world.at)
        invariant world.state == if open then At(Waiting, matchkey, count) else At(Accepting, matchkey, 0)
        decreases |world.answers| - world.at
      {
        if world.at == |world.answers| {
          return Blocked, matchkey;
        }
        ghost var before := world.state;
        var a := world.Ask();
        if a.ready {
          return Go, matchkey;
        }
        var threw;
        threw, count := Idle(world, before, a, matchkey, count);
        if threw {
          return Threw, matchkey;
        }
        if GivesUp(config.ping, count) {
          var key, ok;
          r, key, ok := RandomKey(world, config.key + ":");
          if r.Blocked? {
            return;
          }
          history := history + [Retired(matchkey)] + [Issued(key)];
          matchkey := key;
          if !ok {
            return Threw, matchkey;
          }
          history := history + [Registered(key)];
          count := 0;
        }
      }
      r := Go;
    }
  }

  class RpcServer {
    const config: Config
    const tracker: TrackerClient

    constructor (config: Config)
      ensures this.config == config && tracker.config == config && fresh(tracker)
      ensures !tracker.open && tracker.oldKeys == {} && tracker.history == []
    {
      this.config := config;
      tracker := new TrackerClient(config);
    }

    method AcceptConnection(world: Surroundings) returns (r: Control)
      requires world.Valid() && world.config == config == tracker.config
      requires world.state == Connected(config, tracker.At(Connecting, "", 0))
      modifies tracker, world
      ensures world.Valid() && tracker.open == old(tracker.open) && world.at >= old(world.at)
      ensures r.Go? ==> world.at > old(world.at) && world.state == Begin(config, tracker.At(Connecting, "", 0))
      ensures r.Threw? ==> world.at > old(world.at) && world.state == Fail(config, tracker.At(Connecting, "", 0))
      ensures r.Blocked? ==> world.at == |world.answers| && tracker.Mirrors(world)
    {
      hide Run, FirstWord;
      var matchkey;
      r, matchkey := tracker.ReportResourceAndGetKey(world);
      if !r.Go? {
        return;
      }
      while true
        invariant world.Valid() && tracker.open == old(tracker.open) && world.at >= old(world.at)
        invariant world.state == Wait(tracker.At(Connecting, matchkey, 0))
        decreases |world.answers| - world.at
      {
        r, matchkey := tracker.WaitConnectionAndUpdateKey(world, matchkey);
        if !r.Go? {
          return;
        }
        if world.at == |world.answers| {
          return Blocked;
        }
        var a := world.Ask();
        if !a.ok {
          return Threw;
        }
        tracker.history := tracker.history + [Checked(matchkey, tracker.open, a.text, a.taken)];
        var header := CLIENT_HEADER + matchkey;
        if |a.text| < |header| {
          continue;
        }
        var word := FirstWord(a.text);
        if !a.taken {
          return Threw;
        }
        if word == header {
          tracker.history := tracker.history + [Served];
          return Go;
        }
      }
    }

    /** The outer loop, for as long as the surroundings answer: its history is the machine's. */
    method ListenLoopProc(world: Surroundings)
      requires world.Valid() && world.config == config == tracker.config && world.at == 0
      requires !tracker.open && tracker.oldKeys == {} && tracker.history == []
      modifies tracker, world
      ensures world.at == |world.answers| && tracker.history == Run(config, Init(config), world.answers).history
      ensures tracker.oldKeys == Run(config, Init(config), world.answers).oldKeys
    {
      hide Run, Begin, Connected, Fail;
      assert world.state == Begin(config, tracker.At(Connecting, "", 0)) by {
        assert world.answers[..0] == [];
        RunNone(config, Init(config));
      }
      while true
        invariant world.Valid() && world.state == Begin(config, tracker.At(Connecting, "", 0))
        decreases |world.answers| - world.at
      {
        var r := tracker.TryConnect(world);
        if r.Go? {
          r := AcceptConnection(world);
        }
        if r.Blocked? {
          assert world.answers[..world.at] == world.answers;
          return;
        }
        if r.Threw? {
          FailIsBegin(config, tracker.At(Connecting, "", 0));
          tracker.Close();
        }
      }
    }
  }

  lemma FailIsBegin(c: Config, s: State)
    ensures Fail(c, s) == Begin(c, Note(s.(open := false), Aborted))
  {}

  /** The state from which a drawn key is registered: a key being replaced is noted as retired. */
  function Drawing(s: State): State {
    if s.phase.Regenerating? then Note(s, Retired(s.matchkey)) else s
  }
}
