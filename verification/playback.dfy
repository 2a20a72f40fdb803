/**
  The per-guild playback queue: the state record that `getGuildAudioPlayer`
  creates (`queue`, `isPlaying`, `currentItem`), `processQueue`, `playAudio`,
  the player's `Idle` and `error` handlers, and the `s` / `ss` commands.

  Each queued item carries the promise that `playAudio` returned. An item is
  named by the number `playAudio` gave it, in call order, and its promise is
  the entry for that number in `slots`. The audio player itself is abstract:
  `calls` records what it was asked to do, and its `Idle` and `error` events
  are methods that the environment invokes.
 */
module Playback {
  import opened Wrappers

  /** The state of one `playAudio` promise. */
  datatype Settlement = Pending | Resolved | Rejected

  /** A request made of the audio player. */
  datatype PlayerCall = Play(id: nat) | Stop

  /** The items handed to the player, in order. */
  function PlayedIds(calls: seq<PlayerCall>): seq<nat> {
    if calls == [] then []
    else
      var last := calls[|calls| - 1];
      PlayedIds(calls[..|calls| - 1]) + (if last.Play? then [last.id] else [])
  }

  lemma PlayedIdsSnoc(calls: seq<PlayerCall>, c: PlayerCall)
    ensures PlayedIds(calls + [c]) == PlayedIds(calls) + (if c.Play? then [c.id] else [])
  {
    assert (calls + [c])[..|calls|] == calls;
  }

  predicate Increasing(s: seq<nat>) {
    forall i, j :: 0 <= i < j < |s| ==> s[i] < s[j]
  }

  /** Settling a promise that is already settled has no effect. */
  function Settle(slots: map<nat, Settlement>, id: nat, outcome: Settlement): (r: map<nat, Settlement>)
    requires id in slots
    ensures r.Keys == slots.Keys
    ensures forall k :: k in slots && slots[k] != Pending ==> r[k] == slots[k]
    ensures slots[id] == Pending ==> r[id] == outcome
    ensures forall k :: k in slots && k != id ==> r[k] == slots[k]
  {
    if slots[id] == Pending then slots[id := outcome] else slots
  }

  /** The queue invariant over the items handed to the player (`played`), the
      queue, the current item, the promises, the next item number and the
      discarded items. Every item ever queued is either played, still queued,
      or discarded; items reach the player in the order they were queued;
      queued and discarded items are pending; the item being played is the
      last one handed to the player and is pending, and every item played
      before it is settled. */
  ghost predicate QueueInv(played: seq<nat>, queue: seq<nat>, current: Option<nat>,
                           slots: map<nat, Settlement>, nextId: nat, abandoned: set<nat>)
  {
    && Increasing(played + queue)
    && (forall id: nat :: id in slots <==> id < nextId)
    && (forall id :: id in played ==> id < nextId)
    && (forall id :: id in queue ==> id < nextId && slots[id] == Pending)
    && (forall id :: id in abandoned ==> id < nextId && slots[id] == Pending && id !in queue && id !in played)
    && (forall id: nat :: id < nextId ==> id in played || id in queue || id in abandoned)
    && (current.Some? ==>
          played != [] && played[|played| - 1] == current.value &&
          current.value < nextId && slots[current.value] == Pending)
    && (forall id :: id in played && Some(id) != current ==> id in slots && slots[id] != Pending)
  }

  lemma InvInitial()
    ensures QueueInv([], [], None, map[], 0, {})
  {
    var none: seq<nat> := [];
    assert none + none == none;
  }

  /** `processQueue` on a non-empty queue keeps the invariant. */
  lemma {:induction false} InvStart(played: seq<nat>, queue: seq<nat>, slots: map<nat, Settlement>, nextId: nat, abandoned: set<nat>)
    requires QueueInv(played, queue, None, slots, nextId, abandoned)
    requires queue != []
    ensures QueueInv(played + [queue[0]], queue[1..], Some(queue[0]), slots, nextId, abandoned)
  {
    var p := played + [queue[0]];
    assert queue[0] in queue;
    assert p + queue[1..] == played + queue;
    forall id | id in p
      ensures id in played || id == queue[0]
    {
    }
    forall id | id in queue
      ensures id == queue[0] || id in queue[1..]
    {
      assert queue == [queue[0]] + queue[1..];
    }
    forall id | id in queue[1..]
      ensures id in queue && id < nextId && slots[id] == Pending
    {
      var j :| 0 <= j < |queue[1..]| && queue[1..][j] == id;
      assert queue[j + 1] == id;
    }
  }

  /** Queuing the next item keeps the invariant. */
  lemma {:induction false} InvPush(played: seq<nat>, queue: seq<nat>, current: Option<nat>,
                                   slots: map<nat, Settlement>, nextId: nat, abandoned: set<nat>)
    requires QueueInv(played, queue, current, slots, nextId, abandoned)
    ensures QueueInv(played, queue + [nextId], current, slots[nextId := Pending], nextId + 1, abandoned)
  {
    var all := played + queue;
    assert played + (queue + [nextId]) == all + [nextId];
    forall k | 0 <= k < |all|
      ensures all[k] < nextId
    {
      assert all[k] in played || all[k] in queue;
    }
    forall id | id in queue + [nextId]
      ensures id in queue || id == nextId
    {
    }
  }

  /** Settling the current item and clearing it keeps the invariant. */
  lemma {:induction false} InvFinish(played: seq<nat>, queue: seq<nat>, id: nat,
                                     slots: map<nat, Settlement>, nextId: nat, abandoned: set<nat>, outcome: Settlement)
    requires QueueInv(played, queue, Some(id), slots, nextId, abandoned)
    requires outcome != Pending
    ensures QueueInv(played, queue, None, slots[id := outcome], nextId, abandoned)
  {
    var all := played + queue;
    assert id == all[|played| - 1];
    forall x | x in queue
      ensures x != id
    {
      var j :| 0 <= j < |queue| && queue[j] == x;
      assert all[|played| + j] == x;
    }
  }

  /** Discarding the queue keeps the invariant, with its items discarded. */
  lemma {:induction false} InvDrop(played: seq<nat>, queue: seq<nat>, current: Option<nat>,
                                   slots: map<nat, Settlement>, nextId: nat, abandoned: set<nat>)
    requires QueueInv(played, queue, current, slots, nextId, abandoned)
    ensures QueueInv(played, [], current, slots, nextId, abandoned + set x | x in queue)
  {
    var all := played + queue;
    assert played + [] == played;
    forall x | x in queue
      ensures x !in played
    {
      var j :| 0 <= j < |queue| && queue[j] == x;
      assert all[|played| + j] == x;
      forall i | 0 <= i < |played|
        ensures played[i] != x
      {
        assert all[i] == played[i];
      }
    }
    var dropped := abandoned + set x | x in queue;
    forall x | x in dropped
      ensures x < nextId && slots[x] == Pending && x !in played
    {
    }
    forall id: nat | id < nextId
      ensures id in played || id in dropped
    {
    }
    var none: seq<nat> := [];
    assert played + none == played;
    forall i, j | 0 <= i < j < |played|
      ensures played[i] < played[j]
    {
      assert all[i] == played[i] && all[j] == played[j];
    }
  }

  /** The state record of one guild. */
  class GuildPlayer {
    var queue: seq<nat>
    var isPlaying: bool
    var currentItem: Option<nat>
    var slots: map<nat, Settlement>
    var nextId: nat
    var calls: seq<PlayerCall>
    /** The items that `ss` discarded. */
    ghost var abandoned: set<nat>

    /** See `QueueInv`. */
    ghost predicate Inv()
      reads this
    {
      QueueInv(PlayedIds(calls), queue, currentItem, slots, nextId, abandoned)
    }

    /** Between events: an item is being played exactly when `isPlaying`, and
        nothing waits in the queue while the player is idle. */
    ghost predicate Valid()
      reads this
    {
      && Inv()
      && (isPlaying <==> currentItem.Some?)
      && (!isPlaying ==> queue == [])
    }

    /** The fresh record of `getGuildAudioPlayer`. */
    constructor ()
      ensures Valid()
      ensures queue == [] && !isPlaying && currentItem.None?
      ensures slots == map[] && nextId == 0 && calls == [] && abandoned == {}
    {
      queue := [];
      isPlaying := false;
      currentItem := None;
      slots := map[];
      nextId := 0;
      calls := [];
      abandoned := {};
      InvInitial();
    }

    /** `processQueue`: on an empty queue only clear `isPlaying`; otherwise
        take the head, make it the current item and play it. */
    method ProcessQueue()
      requires Inv() && currentItem.None?
      modifies this
      ensures Valid()
      ensures old(queue) == [] ==>
        !isPlaying && queue == [] && currentItem.None? && calls == old(calls)
      ensures old(queue) != [] ==>
        isPlaying && queue == old(queue)[1..] && currentItem == Some(old(queue)[0]) &&
        calls == old(calls) + [Play(old(queue)[0])]
      ensures slots == old(slots) && nextId == old(nextId) && abandoned == old(abandoned)
    {
      if |queue| == 0 {
        isPlaying := false;
        return;
      }
      isPlaying := true;
      var nextItem := queue[0];
      PlayedIdsSnoc(calls, Play(nextItem));
      InvStart(PlayedIds(calls), queue, slots, nextId, abandoned);
      queue := queue[1..];
      currentItem := Some(nextItem);
      calls := calls + [Play(nextItem)];
    }

    /** `playAudio` once connected: queue a new item, with a pending promise,
        and start playing only when the player is idle. Returns the item. */
    method Enqueue() returns (id: nat)
      requires Valid()
      modifies this
      ensures Valid()
      ensures id == old(nextId) && nextId == id + 1
      ensures forall k :: k in old(slots) ==> k < id
      ensures slots == old(slots)[id := Pending]
      ensures old(isPlaying) ==>
        queue == old(queue) + [id] && currentItem == old(currentItem) && calls == old(calls)
      ensures !old(isPlaying) ==>
        queue == [] && currentItem == Some(id) && calls == old(calls) + [Play(id)]
      ensures isPlaying && abandoned == old(abandoned)
    {
      id := nextId;
      InvPush(PlayedIds(calls), queue, currentItem, slots, nextId, abandoned);
      queue := queue + [id];
      slots := slots[id := Pending];
      nextId := nextId + 1;
      if !isPlaying {
        ProcessQueue();
      }
    }

    /** The `Idle` handler: resolve the current item, clear it, move on. */
    method OnIdle()
      requires Valid()
      modifies this
      ensures Valid()
      ensures old(currentItem).Some? ==> slots == old(slots)[old(currentItem).value := Resolved]
      ensures old(currentItem).None? ==> slots == old(slots)
      ensures old(queue) == [] ==>
        !isPlaying && queue == [] && currentItem.None? && calls == old(calls)
      ensures old(queue) != [] ==>
        isPlaying && queue == old(queue)[1..] && currentItem == Some(old(queue)[0]) &&
        calls == old(calls) + [Play(old(queue)[0])]
      ensures nextId == old(nextId) && abandoned == old(abandoned)
    {
      if currentItem.Some? {
        InvFinish(PlayedIds(calls), queue, currentItem.value, slots, nextId, abandoned, Resolved);
        slots := Settle(slots, currentItem.value, Resolved);
      }
      currentItem := None;
      ProcessQueue();
    }

    /** The `error` handler: reject the current item, clear it, move on. A
        failed item does not hold up the ones queued after it. */
    method OnError()
      requires Valid()
      modifies this
      ensures Valid()
      ensures old(currentItem).Some? ==> slots == old(slots)[old(currentItem).value := Rejected]
      ensures old(currentItem).None? ==> slots == old(slots)
      ensures old(queue) == [] ==>
        !isPlaying && queue == [] && currentItem.None? && calls == old(calls)
      ensures old(queue) != [] ==>
        isPlaying && queue == old(queue)[1..] && currentItem == Some(old(queue)[0]) &&
        calls == old(calls) + [Play(old(queue)[0])]
      ensures nextId == old(nextId) && abandoned == old(abandoned)
    {
      if currentItem.Some? {
        InvFinish(PlayedIds(calls), queue, currentItem.value, slots, nextId, abandoned, Rejected);
        slots := Settle(slots, currentItem.value, Rejected);
      }
      currentItem := None;
      ProcessQueue();
    }

    /** `ss`: drop every queued item, whose promises are then never settled,
        and stop the player if it is playing. */
    method StopAll()
      requires Valid()
      modifies this
      ensures Valid()
      ensures queue == [] && abandoned == old(abandoned) + set id | id in old(queue)
      ensures calls == old(calls) + (if old(isPlaying) then [Stop] else [])
      ensures isPlaying == old(isPlaying) && currentItem == old(currentItem)
      ensures slots == old(slots) && nextId == old(nextId)
    {
      InvDrop(PlayedIds(calls), queue, currentItem, slots, nextId, abandoned);
      abandoned := abandoned + set id | id in queue;
      queue := [];
      if isPlaying {
        PlayedIdsSnoc(calls, Stop);
        assert PlayedIds(calls + [Stop]) == PlayedIds(calls);
        calls := calls + [Stop];
      }
    }

    /** `s`: stop the player if it is playing; the queue is left alone, and
        the `Idle` event that follows moves on to the next item. */
    method Skip()
      requires Valid()
      modifies this
      ensures Valid()
      ensures calls == old(calls) + (if old(isPlaying) then [Stop] else [])
      ensures queue == old(queue) && isPlaying == old(isPlaying) && currentItem == old(currentItem)
      ensures slots == old(slots) && nextId == old(nextId) && abandoned == old(abandoned)
    {
      if isPlaying {
        PlayedIdsSnoc(calls, Stop);
        assert PlayedIds(calls + [Stop]) == PlayedIds(calls);
        calls := calls + [Stop];
      }
    }
  }

  /** The `guildAudioPlayers` map. */
  class Registry {
    var players: map<nat, GuildPlayer>

    ghost predicate Valid()
      reads this, players.Values
    {
      && (forall g :: g in players ==> players[g].Valid())
      && (forall g, h :: g in players && h in players && g != h ==> players[g] != players[h])
    }

    /** The state of `guild`, when it has one: the only state a command for
        that guild may change. */
    function StateOf(guild: nat): set<GuildPlayer>
      reads this
    {
      if guild in players then {players[guild]} else {}
    }

    /** The queue of `guild`, or the empty queue a fresh state starts with. */
    function QueueOf(guild: nat): seq<nat>
      reads this, StateOf(guild)
    {
      if guild in players then players[guild].queue else []
    }

    function PlayingOf(guild: nat): bool
      reads this, StateOf(guild)
    {
      guild in players && players[guild].isPlaying
    }

    function CurrentOf(guild: nat): Option<nat>
      reads this, StateOf(guild)
    {
      if guild in players then players[guild].currentItem else None
    }

    function SlotsOf(guild: nat): map<nat, Settlement>
      reads this, StateOf(guild)
    {
      if guild in players then players[guild].slots else map[]
    }

    function NextIdOf(guild: nat): nat
      reads this, StateOf(guild)
    {
      if guild in players then players[guild].nextId else 0
    }

    function CallsOf(guild: nat): seq<PlayerCall>
      reads this, StateOf(guild)
    {
      if guild in players then players[guild].calls else []
    }

    constructor ()
      ensures Valid() && players == map[]
    {
      players := map[];
    }

    /** `getGuildAudioPlayer`: create the state only for a guild that has
        none; afterwards the same state is returned. */
    method GetGuildAudioPlayer(guild: nat) returns (p: GuildPlayer)
      requires Valid()
      modifies this
      ensures Valid()
      ensures guild in players && players[guild] == p && p.Valid()
      ensures players == old(players)[guild := p]
      ensures guild in old(players) ==> players == old(players) && p == old(players)[guild]
      ensures guild !in old(players) ==>
        fresh(p) && players == old(players)[guild := p] &&
        p.queue == [] && !p.isPlaying && p.currentItem.None? && p.slots == map[] && p.nextId == 0 &&
        p.calls == []
    {
      if guild !in players {
        var player := new GuildPlayer();
        players := players[guild := player];
      }
      p := players[guild];
      assert players == players[guild := p];
    }

    /** `playAudio`: without a voice connection it throws (`None`) before any
        state is created; otherwise the item joins the guild's queue, which
        plays it at once when the player is idle, and the number of its pending
        promise is returned. */
    method PlayAudio(guild: nat, connected: bool) returns (r: Option<nat>)
      requires Valid()
      modifies this, StateOf(guild)
      ensures Valid()
      ensures !connected ==>
        r.None? && players == old(players) && (guild in players ==> unchanged(players[guild]))
      ensures connected ==>
        && r == Some(old(NextIdOf(guild)))
        && guild in players && players == old(players)[guild := players[guild]]
        && (guild in old(players) ==> players[guild] == old(players[guild]))
        && (guild !in old(players) ==> fresh(players[guild]))
        && NextIdOf(guild) == r.value + 1
        && SlotsOf(guild) == old(SlotsOf(guild))[r.value := Pending]
        && PlayingOf(guild)
        && (old(PlayingOf(guild)) ==>
              QueueOf(guild) == old(QueueOf(guild)) + [r.value] &&
              CurrentOf(guild) == old(CurrentOf(guild)) && CallsOf(guild) == old(CallsOf(guild)))
        && (!old(PlayingOf(guild)) ==>
              QueueOf(guild) == [] && CurrentOf(guild) == Some(r.value) &&
              CallsOf(guild) == old(CallsOf(guild)) + [Play(r.value)])
    {
      if !connected {
        return None;
      }
      var p := GetGuildAudioPlayer(guild);
      var id := p.Enqueue();
      r := Some(id);
    }

    /** The `ss` / `ｓｓ` and `s` / `ｓ` messages. Returns whether the message
        was one of them, and the reaction added: ⏹️ after `ss` always, ⏭️
        after `s` only when something was playing. Any other message changes
        nothing. */
    method StopCommand(guild: nat, content: string) returns (handled: bool, reaction: Option<string>)
      requires Valid()
      modifies this, StateOf(guild)
      ensures Valid()
      ensures handled <==> content in {"ss", "ｓｓ", "s", "ｓ"}
      ensures content in {"ss", "ｓｓ"} ==>
        && guild in players && players == old(players)[guild := players[guild]]
        && (guild in old(players) ==> players[guild] == old(players[guild]))
        && (guild !in old(players) ==> fresh(players[guild]))
        && QueueOf(guild) == []
        && CallsOf(guild) == old(CallsOf(guild)) + (if old(PlayingOf(guild)) then [Stop] else [])
        && PlayingOf(guild) == old(PlayingOf(guild)) && CurrentOf(guild) == old(CurrentOf(guild))
        && SlotsOf(guild) == old(SlotsOf(guild))
        && reaction == Some("\U{23F9}\U{FE0F}")
      ensures content in {"s", "ｓ"} ==>
        && guild in players && players == old(players)[guild := players[guild]]
        && (guild in old(players) ==> players[guild] == old(players[guild]))
        && (guild !in old(players) ==> fresh(players[guild]))
        && QueueOf(guild) == old(QueueOf(guild))
        && CallsOf(guild) == old(CallsOf(guild)) + (if old(PlayingOf(guild)) then [Stop] else [])
        && PlayingOf(guild) == old(PlayingOf(guild)) && CurrentOf(guild) == old(CurrentOf(guild))
        && SlotsOf(guild) == old(SlotsOf(guild))
        && reaction == (if old(PlayingOf(guild)) then Some("\U{23ED}\U{FE0F}") else None)
      ensures !handled ==>
        reaction.None? && players == old(players) && (guild in players ==> unchanged(players[guild]))
    {
      handled := false;
      reaction := None;
      if content == "ss" || content == "ｓｓ" {
        StopAllCommand(guild);
        handled := true;
        reaction := Some("\U{23F9}\U{FE0F}");
        return;
      }
      if content == "s" || content == "ｓ" {
        reaction := SkipCommand(guild);
        handled := true;
      }
    }

    /** `ss`: discard the guild's queue and stop whatever is playing. */
    method StopAllCommand(guild: nat)
      requires Valid()
      modifies this, StateOf(guild)
      ensures Valid()
      ensures guild in players && players == old(players)[guild := players[guild]]
      ensures guild in old(players) ==> players[guild] == old(players[guild])
      ensures guild !in old(players) ==> fresh(players[guild])
      ensures QueueOf(guild) == []
      ensures CallsOf(guild) == old(CallsOf(guild)) + (if old(PlayingOf(guild)) then [Stop] else [])
      ensures PlayingOf(guild) == old(PlayingOf(guild)) && CurrentOf(guild) == old(CurrentOf(guild))
      ensures SlotsOf(guild) == old(SlotsOf(guild))
    {
      var state := GetGuildAudioPlayer(guild);
      state.StopAll();
    }

    /** `s`: stop the current item when one is playing and report ⏭️; the queue
        is left alone. */
    method SkipCommand(guild: nat) returns (reaction: Option<string>)
      requires Valid()
      modifies this, StateOf(guild)
      ensures Valid()
      ensures guild in players && players == old(players)[guild := players[guild]]
      ensures guild in old(players) ==> players[guild] == old(players[guild])
      ensures guild !in old(players) ==> fresh(players[guild])
      ensures QueueOf(guild) == old(QueueOf(guild))
      ensures CallsOf(guild) == old(CallsOf(guild)) + (if old(PlayingOf(guild)) then [Stop] else [])
      ensures PlayingOf(guild) == old(PlayingOf(guild)) && CurrentOf(guild) == old(CurrentOf(guild))
      ensures SlotsOf(guild) == old(SlotsOf(guild))
      ensures reaction == (if old(PlayingOf(guild)) then Some("\U{23ED}\U{FE0F}") else None)
    {
      reaction := None;
      var state := GetGuildAudioPlayer(guild);
      if state.isPlaying {
        state.Skip();
        assert players[guild] == state && state.Valid();
        reaction := Some("\U{23ED}\U{FE0F}");
      }
    }
  }
}
