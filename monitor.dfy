/**
 * The running bot: the registry of pools, the alert status table and the per-chat
 * dialogue mode, with one method per poll and per chat transition.
 */
module Bot {
  import opened Wrappers
  import opened PriceMath
  import opened Alerts
  import opened Text
  import opened Registry

  type ChatId = int

  /** What a chat is in the middle of (`pendingAddPool[chatId]`). */
  datatype Pending =
    | AddingPool                    // after /add: waiting for the pool's lines
    | ChoosingEdit                  // after /edit: waiting for a 1-based position
    | EditingValues(poolIndex: nat) // position chosen: waiting for min and max
    | ChoosingRemoval               // after /remove: waiting for a 1-based position

  /** The answer the bot sends back to the chat. */
  datatype Reply =
    | Ignored                       // a command, or no dialogue in progress: no answer
    | AddPrompt
    | NoPools
    | EditMenu
    | RemoveMenu
    | Cancelled
    | InvalidIndex
    | BadLineCount
    | BadNumbers
    | StaleSelection                // the chosen position no longer exists
    | EditChosen(pool: PoolConfig)
    | BoundsUpdated(pool: PoolConfig)
    | PoolRemoved(pool: PoolConfig)
    | PoolAdded(pool: PoolConfig)

  /** Messages starting with a slash are commands and are left to the command handlers. */
  predicate IsCommand(text: string)
  {
    |text| > 0 && text[0] == '/'
  }

  /** The 0-based position a 1-based answer selects, if it selects one of `count` pools. */
  function ChosenIndex(answer: Option<int>, count: nat): (r: Option<nat>)
    ensures r.Some? <==> answer.Some? && 1 <= answer.value <= count
    ensures r.Some? ==> r.value < count && r.value + 1 == answer.value
  {
    if answer.None? || answer.value - 1 < 0 || answer.value - 1 >= count then None
    else Some(answer.value - 1)
  }

  class Monitor {
    var pools: seq<PoolConfig>
    var status: map<string, Zone>
    var pending: map<ChatId, Pending>

    /** Every status entry belongs to a registered pool: removing a pool discards its state. */
    ghost predicate Valid()
      reads this
    {
      status.Keys <= Ids(pools)
    }

    constructor ()
      ensures Valid()
      ensures pools == [] && status == map[] && pending == map[]
    {
      pools, status, pending := [], map[], map[];
    }

    /**
     * One poll (`checkPools`): `fetched[i]` is what fetching `pools[i]` produced. The
     * status table and the alerts are those of `Cycle`.
     */
    method CheckPools(fetched: seq<Option<Quote>>) returns (alerts: seq<Alert>)
      requires Valid() && |fetched| == |pools|
      modifies this
      ensures Valid()
      ensures pools == old(pools) && pending == old(pending)
      ensures Step(status, alerts) == Cycle(old(status), pools, fetched)
    {
      alerts := [];
      var i := 0;
      while i < |pools|
        invariant 0 <= i <= |pools|
        invariant pools == old(pools) && pending == old(pending)
        invariant Step(status, alerts) == Cycle(old(status), pools[..i], fetched[..i])
      {
        var config := pools[i];
        var price := fetched[i];
        ghost var step := PoolStep(status, config, price);
        ghost var alertsBefore := alerts;
        CycleLast(old(status), pools, fetched, i);
        if price.Some? && price.value != Finite(0.0) {
          var previous := if config.id in status then status[config.id] else Inside;
          var outside := IsOutside(price.value, config.min, config.max);
          if outside && previous == Inside {
            alerts := alerts + [Breach(config, price.value)];
            status := status[config.id := Outside];
          } else if !outside && previous == Outside {
            alerts := alerts + [Recovery(config, price.value)];
            status := status[config.id := Inside];
          }
        }
        assert status == step.status && alerts == alertsBefore + step.alerts;
        i := i + 1;
      }
      assert pools[..i] == pools && fetched[..i] == fetched;
    }

    /** `/add`: the chat is now entering a new pool. */
    method StartAdd(chat: ChatId) returns (reply: Reply)
      requires Valid()
      modifies this
      ensures Valid()
      ensures pools == old(pools) && status == old(status)
      ensures pending == old(pending)[chat := AddingPool] && reply == AddPrompt
    {
      pending := pending[chat := AddingPool];
      reply := AddPrompt;
    }

    /** `/edit`: with pools registered, the chat is now choosing one to edit. */
    method StartEdit(chat: ChatId) returns (reply: Reply)
      requires Valid()
      modifies this
      ensures Valid()
      ensures pools == old(pools) && status == old(status)
      ensures |pools| == 0 ==> pending == old(pending) && reply == NoPools
      ensures |pools| > 0 ==> pending == old(pending)[chat := ChoosingEdit] && reply == EditMenu
    {
      if |pools| == 0 {
        return NoPools;
      }
      pending := pending[chat := ChoosingEdit];
      reply := EditMenu;
    }

    /** `/remove`: with pools registered, the chat is now choosing one to remove. */
    method StartRemove(chat: ChatId) returns (reply: Reply)
      requires Valid()
      modifies this
      ensures Valid()
      ensures pools == old(pools) && status == old(status)
      ensures |pools| == 0 ==> pending == old(pending) && reply == NoPools
      ensures |pools| > 0 ==> pending == old(pending)[chat := ChoosingRemoval] && reply == RemoveMenu
    {
      if |pools| == 0 {
        return NoPools;
      }
      pending := pending[chat := ChoosingRemoval];
      reply := RemoveMenu;
    }

    /** `/cancel`: the chat's dialogue, if any, is dropped. */
    method Cancel(chat: ChatId) returns (reply: Reply)
      requires Valid()
      modifies this
      ensures Valid()
      ensures pools == old(pools) && status == old(status)
      ensures pending == old(pending) - {chat} && reply == Cancelled
    {
      pending := pending - {chat};
      reply := Cancelled;
    }

    /** Edit, step 1: a 1-based position in range selects the pool to edit. */
    method ChoosePoolToEdit(chat: ChatId, text: string, parseInt: string -> Option<int>) returns (reply: Reply)
      requires Valid()
      requires chat in pending && pending[chat] == ChoosingEdit
      modifies this
      ensures Valid()
      ensures pools == old(pools) && status == old(status)
      ensures match ChosenIndex(parseInt(text), |pools|)
              case Some(index) => pending == old(pending)[chat := EditingValues(index)] && reply == EditChosen(pools[index])
              case None => pending == old(pending) && reply == InvalidIndex
    {
      var index := ChosenIndex(parseInt(text), |pools|);
      if index.None? {
        return InvalidIndex;
      }
      pending := pending[chat := EditingValues(index.value)];
      reply := EditChosen(pools[index.value]);
    }

    /**
     * Edit, step 2: exactly two numeric lines become the chosen pool's bounds and
     * reset its status to inside. The position is not re-checked when the step
     * runs: if the registry has since shrunk below it, the pool is missing and
     * nothing changes.
     */
    method SubmitBounds(chat: ChatId, text: string, parseFloat: string -> Option<real>) returns (reply: Reply)
      requires Valid()
      requires chat in pending && pending[chat].EditingValues?
      modifies this
      ensures Valid()
      ensures var lines, index := Lines(text), old(pending[chat].poolIndex);
              if |lines| != 2 then
                unchanged(this) && reply == BadLineCount
              else if parseFloat(lines[0]).None? || parseFloat(lines[1]).None? then
                unchanged(this) && reply == BadNumbers
              else if index >= |old(pools)| then
                unchanged(this) && reply == StaleSelection
              else
                && pools == SetBounds(old(pools), index, parseFloat(lines[0]).value, parseFloat(lines[1]).value)
                && status == old(status)[old(pools)[index].id := Inside]
                && pending == old(pending) - {chat}
                && reply == BoundsUpdated(pools[index])
    {
      var lines := Lines(text);
      if |lines| != 2 {
        return BadLineCount;
      }
      var min, max := parseFloat(lines[0]), parseFloat(lines[1]);
      if min.None? || max.None? {
        return BadNumbers;
      }
      var index := pending[chat].poolIndex;
      if index >= |pools| {
        return StaleSelection;
      }
      var id := pools[index].id;
      pools := pools[index := pools[index].(min := min.value, max := max.value)];
      assert Ids(pools) == Ids(old(pools)) by {
        assert pools == SetBounds(old(pools), index, min.value, max.value);
      }
      status := status[id := Inside];
      pending := pending - {chat};
      reply := BoundsUpdated(pools[index]);
    }

    /** Remove: a 1-based position in range removes that pool and its id's status. */
    method ChoosePoolToRemove(chat: ChatId, text: string, parseInt: string -> Option<int>) returns (reply: Reply)
      requires Valid()
      requires chat in pending && pending[chat] == ChoosingRemoval
      modifies this
      ensures Valid()
      ensures match ChosenIndex(parseInt(text), |old(pools)|)
              case Some(index) =>
                && pools == RemoveAt(old(pools), index)
                && status == old(status) - {old(pools)[index].id}
                && pending == old(pending) - {chat}
                && reply == PoolRemoved(old(pools)[index])
              case None => unchanged(this) && reply == InvalidIndex
    {
      var index := ChosenIndex(parseInt(text), |pools|);
      if index.None? {
        return InvalidIndex;
      }
      var i := index.value;
      var removed := pools[i];
      RemoveAtIds(pools, i);
      pools := pools[..i] + pools[i + 1..];
      status := status - {removed.id};
      pending := pending - {chat};
      reply := PoolRemoved(removed);
    }

    /** Add: a well-formed request appends one pool at the end and ends the dialogue. */
    method SubmitPool(chat: ChatId, text: string, parseFloat: string -> Option<real>) returns (reply: Reply)
      requires Valid()
      requires chat in pending && pending[chat] == AddingPool
      modifies this
      ensures Valid()
      ensures status == old(status)
      ensures match NewPool(Lines(text), parseFloat)
              case Ok(pool) =>
                pools == old(pools) + [pool] && pending == old(pending) - {chat} && reply == PoolAdded(pool)
              case Err(WrongLineCount) => unchanged(this) && reply == BadLineCount
              case Err(InvalidBounds) => unchanged(this) && reply == BadNumbers
    {
      match NewPool(Lines(text), parseFloat)
      case Err(WrongLineCount) =>
        reply := BadLineCount;
      case Err(InvalidBounds) =>
        reply := BadNumbers;
      case Ok(pool) =>
        pools := pools + [pool];
        assert Ids(old(pools)) <= Ids(pools) by {
          assert forall k | 0 <= k < |old(pools)| :: pools[k] == old(pools)[k];
        }
        pending := pending - {chat};
        reply := PoolAdded(pool);
    }

    /**
     * A plain chat message (`bot.on("message")`): commands and chats with no
     * dialogue in progress are ignored; otherwise the chat's mode picks the step.
     */
    method HandleMessage(chat: ChatId, text: string, parseInt: string -> Option<int>,
                         parseFloat: string -> Option<real>) returns (reply: Reply)
      requires Valid()
      modifies this
      ensures Valid()
      ensures IsCommand(text) || chat !in old(pending) ==> unchanged(this) && reply == Ignored
      ensures !IsCommand(text) && chat in old(pending) && old(pending[chat]).ChoosingEdit? ==>
                pools == old(pools) && status == old(status) && (reply == InvalidIndex || reply.EditChosen?)
      ensures !IsCommand(text) && chat in old(pending) && old(pending[chat]).EditingValues? ==>
                |pools| == |old(pools)| && Ids(pools) == Ids(old(pools)) &&
                (reply.BoundsUpdated? || (unchanged(this) && reply in {BadLineCount, BadNumbers, StaleSelection}))
      ensures !IsCommand(text) && chat in old(pending) && old(pending[chat]).ChoosingRemoval? ==>
                (reply.PoolRemoved? && |pools| == |old(pools)| - 1 && reply.pool.id !in status) ||
                (unchanged(this) && reply == InvalidIndex)
      ensures !IsCommand(text) && chat in old(pending) && old(pending[chat]).AddingPool? ==>
                status == old(status) &&
                ((reply.PoolAdded? && pools == old(pools) + [reply.pool]) ||
                 (unchanged(this) && reply in {BadLineCount, BadNumbers}))
    {
      if IsCommand(text) || chat !in pending {
        return Ignored;
      }
      match pending[chat]
      case ChoosingEdit =>
        reply := ChoosePoolToEdit(chat, text, parseInt);
      case EditingValues(_) =>
        reply := SubmitBounds(chat, text, parseFloat);
      case ChoosingRemoval =>
        reply := ChoosePoolToRemove(chat, text, parseInt);
      case AddingPool =>
        reply := SubmitPool(chat, text, parseFloat);
    }
  }
}
