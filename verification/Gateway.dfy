/**
 * `GatewayCacheBridge`: gateway events are written to a RAM cache and to the
 * database, and announced on an IPC channel. Cache entries may be evicted at
 * any time and any database operation may fail.
 */
module Gateway {
  import opened Common

  // -------------------------------------------------------------------- data

  /** A gateway message payload. */
  datatype Message = Message(id: nat, channelId: nat, authorId: nat, content: string)

  datatype Channel = Channel(id: nat, guildId: Option<nat>, name: Option<string>, kind: nat)

  datatype Guild = Guild(id: nat, name: string, ownerId: nat, icon: Option<string>, channels: seq<Channel>)

  datatype Event =
    | MessageCreate(m: Message)
    | MessageUpdate(m: Message)
    | GuildAvailable(guild: Guild)
    | GuildUnavailable(guildId: nat)
    | Ready(userId: nat, guildIds: seq<nat>)
    | OtherEvent

  /** The cache's own message type; the bridge fills no author and no time. */
  datatype Cached = Cached(id: nat, channelId: nat, authorId: Option<nat>, content: string, timestamp: int)

  /** A row of `messages`; `raw` is the serialised payload. */
  datatype MessageRow = MessageRow(channelId: nat, authorId: nat, content: string, timestamp: int, raw: Message)

  /** A row of `guilds`; a placeholder has no payload. */
  datatype GuildRow = GuildRow(name: string, ownerId: Option<nat>, icon: Option<string>, raw: Option<Guild>)

  datatype ChannelRow = ChannelRow(guildId: nat, name: Option<string>, kind: nat, raw: Channel)

  datatype IpcEvent =
    | MessageCreated(channelId: nat, messageId: nat)
    | MessageEdited(channelId: nat, messageId: nat)
    | LoginSuccess(userId: nat)

  datatype Reply = Fine | StorageError | ChannelClosed

  datatype Stores = Stores(
    cache: map<nat, Cached>,
    messages: map<nat, MessageRow>,
    guilds: map<nat, GuildRow>,
    channels: map<nat, ChannelRow>,
    log: seq<IpcEvent>)

  function CachedOf(m: Message): Cached { Cached(m.id, m.channelId, None, m.content, 0) }

  function RowOf(m: Message): MessageRow { MessageRow(m.channelId, m.authorId, m.content, 0, m) }

  const PLACEHOLDER := GuildRow("", None, None, None)

  function GuildRowOf(g: Guild): GuildRow { GuildRow(g.name, Some(g.ownerId), g.icon, Some(g)) }

  function ChannelRowOf(c: Channel): ChannelRow {
    ChannelRow(match c.guildId case Some(g) => g case None => 0, c.name, c.kind, c)
  }

  // ----------------------------------------------- one event, as a function

  function PlaceGuilds(rows: map<nat, GuildRow>, ids: seq<nat>): map<nat, GuildRow> {
    if ids == [] then rows else PlaceGuilds(rows, ids[..|ids| - 1])[ids[|ids| - 1] := PLACEHOLDER]
  }

  function WriteChannels(rows: map<nat, ChannelRow>, cs: seq<Channel>): map<nat, ChannelRow> {
    if cs == [] then rows
    else WriteChannels(rows, cs[..|cs| - 1])[cs[|cs| - 1].id := ChannelRowOf(cs[|cs| - 1])]
  }

  function Push(s: Stores, event: IpcEvent, open: bool): (Stores, Reply) {
    if open then (s.(log := s.log + [event]), Fine) else (s, ChannelClosed)
  }

  /**
   * A handler stops at its first failing database operation, so one number
   * describes every failure: operation `failAt` fails. Operation 0 is taking
   * a connection; each row written is one more.
   */
  function Operations(ev: Event): nat {
    match ev
    case MessageCreate(_) => 2
    case MessageUpdate(_) => 2
    case GuildAvailable(g) => 2 + |g.channels|
    case GuildUnavailable(_) => 2
    case Ready(_, ids) => 1 + |ids|
    case OtherEvent => 0
  }

  predicate StorageOk(ev: Event, failAt: nat) { failAt >= Operations(ev) }

  /** What `handle_event` leaves behind and answers. */
  function Handle(s: Stores, ev: Event, failAt: nat, open: bool): (Stores, Reply) {
    match ev
    case MessageCreate(m) =>
      var put := s.(cache := s.cache[m.id := CachedOf(m)]);
      if failAt < 2 then (put, StorageError)
      else Push(put.(messages := put.messages[m.id := RowOf(m)]), MessageCreated(m.channelId, m.id), open)
    case MessageUpdate(m) =>
      var put := s.(cache := s.cache[m.id := CachedOf(m)]);
      if failAt < 2 then (put, StorageError)
      else
        var rows := if m.id in put.messages
                    then put.messages[m.id := put.messages[m.id].(content := m.content)] else put.messages;
        Push(put.(messages := rows), MessageEdited(m.channelId, m.id), open)
    case GuildAvailable(g) =>
      if failAt < 2 then (s, StorageError)
      else
        var written := Min(|g.channels|, failAt - 2);
        (s.(guilds := s.guilds[g.id := GuildRowOf(g)], channels := WriteChannels(s.channels, g.channels[..written])),
         if StorageOk(ev, failAt) then Fine else StorageError)
    case GuildUnavailable(id) =>
      if failAt < 2 then (s, StorageError) else (s.(guilds := s.guilds[id := PLACEHOLDER]), Fine)
    case Ready(user, ids) =>
      if failAt == 0 then (s, StorageError)
      else
        var placed := s.(guilds := PlaceGuilds(s.guilds, ids[..Min(|ids|, failAt - 1)]));
        if !StorageOk(ev, failAt) then (placed, StorageError) else Push(placed, LoginSuccess(user), open)
    case OtherEvent => (s, Fine)
  }

  // ---------------------------------------------------------- the component

  class Bridge {
    var cache: map<nat, Cached>
    var messages: map<nat, MessageRow>
    var guilds: map<nat, GuildRow>
    var channels: map<nat, ChannelRow>
    var log: seq<IpcEvent>
    const open: bool  // the receiving end of the IPC channel still exists

    function Contents(): Stores
      reads this
    {
      Stores(cache, messages, guilds, channels, log)
    }

    constructor (open: bool)
      ensures Contents() == Stores(map[], map[], map[], map[], []) && this.open == open
    {
      this.open := open;
      cache, messages, guilds, channels, log := map[], map[], map[], map[], [];
    }

    /** Eviction by the cache, at its own discretion. */
    method Evict(ids: set<nat>)
      modifies this
      ensures Contents() == old(Contents()).(cache := old(cache) - ids)
    {
      cache := cache - ids;
    }

    method PushEvent(event: IpcEvent) returns (r: Reply)
      modifies this`log
      ensures (Contents(), r) == Push(old(Contents()), event, open)
    {
      if !open {
        return ChannelClosed;
      }
      log := log + [event];
      return Fine;
    }

    method OnMessageCreate(m: Message, failAt: nat) returns (r: Reply)
      modifies this
      ensures (Contents(), r) == Handle(old(Contents()), MessageCreate(m), failAt, open)
    {
      cache := cache[m.id := CachedOf(m)];
      if failAt < 2 {
        return StorageError;
      }
      messages := messages[m.id := RowOf(m)];
      r := PushEvent(MessageCreated(m.channelId, m.id));
    }

    method OnMessageUpdate(m: Message, failAt: nat) returns (r: Reply)
      modifies this
      ensures (Contents(), r) == Handle(old(Contents()), MessageUpdate(m), failAt, open)
    {
      cache := cache[m.id := CachedOf(m)];
      if failAt < 2 {
        return StorageError;
      }
      if m.id in messages {
        messages := messages[m.id := messages[m.id].(content := m.content)];
      }
      r := PushEvent(MessageEdited(m.channelId, m.id));
    }

    method UpsertChannel(c: Channel)
      modifies this`channels
      ensures channels == old(channels)[c.id := ChannelRowOf(c)]
    {
      channels := channels[c.id := ChannelRowOf(c)];
    }

    method OnGuildCreate(g: Guild, failAt: nat) returns (r: Reply)
      modifies this
      ensures (Contents(), r) == Handle(old(Contents()), GuildAvailable(g), failAt, open)
    {
      if failAt < 2 {
        return StorageError;
      }
      guilds := guilds[g.id := GuildRowOf(g)];
      for i := 0 to |g.channels|
        invariant i <= failAt - 2
        invariant channels == WriteChannels(old(channels), g.channels[..i])
        invariant Contents() == old(Contents()).(guilds := old(guilds)[g.id := GuildRowOf(g)], channels := channels)
      {
        if failAt == 2 + i {
          return StorageError;
        }
        assert g.channels[..i + 1][..i] == g.channels[..i];
        UpsertChannel(g.channels[i]);
      }
      return Fine;
    }

    method OnGuildUnavailable(id: nat, failAt: nat) returns (r: Reply)
      modifies this
      ensures (Contents(), r) == Handle(old(Contents()), GuildUnavailable(id), failAt, open)
    {
      if failAt < 2 {
        return StorageError;
      }
      guilds := guilds[id := PLACEHOLDER];
      return Fine;
    }

    method OnReady(userId: nat, ids: seq<nat>, failAt: nat) returns (r: Reply)
      modifies this
      ensures (Contents(), r) == Handle(old(Contents()), Ready(userId, ids), failAt, open)
    {
      if failAt == 0 {
        return StorageError;
      }
      for i := 0 to |ids|
        invariant i <= failAt - 1
        invariant guilds == PlaceGuilds(old(guilds), ids[..i])
        invariant Contents() == old(Contents()).(guilds := guilds)
      {
        if failAt == 1 + i {
          return StorageError;
        }
        assert ids[..i + 1][..i] == ids[..i];
        guilds := guilds[ids[i] := PLACEHOLDER];
      }
      assert ids[..|ids|] == ids[..Min(|ids|, failAt - 1)];
      r := PushEvent(LoginSuccess(userId));
    }

    method HandleEvent(ev: Event, failAt: nat) returns (r: Reply)
      modifies this
      ensures (Contents(), r) == Handle(old(Contents()), ev, failAt, open)
    {
      match ev {
        case MessageCreate(m) => r := OnMessageCreate(m, failAt);
        case MessageUpdate(m) => r := OnMessageUpdate(m, failAt);
        case GuildAvailable(g) => r := OnGuildCreate(g, failAt);
        case GuildUnavailable(id) => r := OnGuildUnavailable(id, failAt);
        case Ready(user, ids) => r := OnReady(user, ids, failAt);
        case OtherEvent => r := Fine;
      }
    }
  }

  // -------------------------------------------------------------------- runs

  datatype Step = Deliver(ev: Event, failAt: nat) | Eviction(ids: set<nat>)

  const EMPTY := Stores(map[], map[], map[], map[], [])

  function After(s: Stores, step: Step, open: bool): Stores {
    match step
    case Deliver(ev, failAt) => Handle(s, ev, failAt, open).0
    case Eviction(ids) => s.(cache := s.cache - ids)
  }

  function Run(steps: seq<Step>, open: bool): Stores {
    if steps == [] then EMPTY
    else After(Run(steps[..|steps| - 1], open), steps[|steps| - 1], open)
  }

  function Find<T>(rows: map<nat, T>, id: nat): Option<T> {
    if id in rows then Some(rows[id]) else None
  }

  // ------------------------------------------------ one step, seen by one id

  lemma StepOnCache(s: Stores, step: Step, open: bool, id: nat)
    ensures Find(After(s, step, open).cache, id) ==
            if Is(step, id, AnyWrite) then Some(CachedOf(PayloadOf(step).value))
            else if Evicts(step, id) then None
            else Find(s.cache, id)
  {
    if step.Deliver? {
      HandleOnCache(s, step.ev, step.failAt, open);
    }
  }

  /** What an event does to the cache, as a whole. */
  lemma HandleOnCache(s: Stores, ev: Event, failAt: nat, open: bool)
    ensures Handle(s, ev, failAt, open).0.cache ==
            match PayloadOf(Deliver(ev, failAt))
            case Some(m) => s.cache[m.id := CachedOf(m)]
            case None => s.cache
  {
  }

  lemma StepOnRow(s: Stores, step: Step, open: bool, id: nat)
    ensures Find(After(s, step, open).messages, id) ==
            if Is(step, id, StoredCreate) then Some(RowOf(PayloadOf(step).value))
            else if Is(step, id, StoredWrite) then
              (match Find(s.messages, id)
               case Some(row) => Some(row.(content := PayloadOf(step).value.content))
               case None => None)
            else Find(s.messages, id)
  {
    if step.Deliver? {
      HandleOnRows(s, step.ev, step.failAt, open);
    }
  }

  /** What an event does to the message table, as a whole. */
  lemma HandleOnRows(s: Stores, ev: Event, failAt: nat, open: bool)
    ensures Handle(s, ev, failAt, open).0.messages ==
            if !StorageOk(ev, failAt) then s.messages
            else
              match ev
              case MessageCreate(m) => s.messages[m.id := RowOf(m)]
              case MessageUpdate(m) =>
                (if m.id in s.messages then s.messages[m.id := s.messages[m.id].(content := m.content)] else s.messages)
              case _ => s.messages
  {
  }

  lemma StepOnLog(s: Stores, step: Step, open: bool)
    ensures After(s, step, open).log == if open then s.log + Announcement(step) else s.log
  {
    assert s.log + [] == s.log;
  }

  /** Everything but the log. */
  predicate SameStored(s: Stores, t: Stores) {
    s.cache == t.cache && s.messages == t.messages && s.guilds == t.guilds && s.channels == t.channels
  }

  lemma StepIgnoresLog(s: Stores, t: Stores, step: Step)
    requires SameStored(s, t)
    ensures SameStored(After(s, step, true), After(t, step, false))
  {
    match step
    case Eviction(_) =>
    case Deliver(ev, failAt) => HandleIgnoresLog(s, t, ev, failAt);
  }

  lemma HandleIgnoresLog(s: Stores, t: Stores, ev: Event, failAt: nat)
    requires SameStored(s, t)
    ensures SameStored(Handle(s, ev, failAt, true).0, Handle(t, ev, failAt, false).0)
  {
    match ev
    case MessageCreate(m) =>
    case MessageUpdate(m) =>
    case GuildAvailable(g) =>
    case GuildUnavailable(id) =>
    case Ready(user, ids) =>
    case OtherEvent =>
  }

  // ----------------------------- what a history says, read from its far end

  /** Any create or update; one whose statements succeeded; a successful create. */
  datatype Kind = AnyWrite | StoredWrite | StoredCreate

  function PayloadOf(step: Step): Option<Message> {
    match step
    case Deliver(MessageCreate(m), _) => Some(m)
    case Deliver(MessageUpdate(m), _) => Some(m)
    case _ => None
  }

  predicate Is(step: Step, id: nat, kind: Kind) {
    && PayloadOf(step).Some? && PayloadOf(step).value.id == id
    && (kind != AnyWrite ==> StorageOk(step.ev, step.failAt))
    && (kind == StoredCreate ==> step.ev.MessageCreate?)
  }

  /** The last step of this kind about message `id`, or -1. */
  function Last(steps: seq<Step>, id: nat, kind: Kind): (i: int)
    ensures -1 <= i < |steps|
    ensures i >= 0 ==> Is(steps[i], id, kind)
    ensures forall j :: i < j < |steps| ==> !Is(steps[j], id, kind)
  {
    if steps == [] then -1
    else if Is(steps[|steps| - 1], id, kind) then |steps| - 1
    else Last(steps[..|steps| - 1], id, kind)
  }

  function PayloadAt(steps: seq<Step>, i: int): Message
    requires 0 <= i < |steps| && PayloadOf(steps[i]).Some?
  {
    PayloadOf(steps[i]).value
  }

  predicate Evicts(step: Step, id: nat) { step.Eviction? && id in step.ids }

  ghost predicate EvictedSince(steps: seq<Step>, id: nat, i: int) {
    exists j :: 0 <= j < |steps| && i < j && Evicts(steps[j], id)
  }

  /** How `Last` and the evictions after it move when one step is added. */
  lemma LastStep(steps: seq<Step>, id: nat, kind: Kind)
    requires steps != []
    ensures
      var n := |steps| - 1;
      Last(steps, id, kind) == if Is(steps[n], id, kind) then n else Last(steps[..n], id, kind)
    ensures
      var n := |steps| - 1;
      Last(steps[..n], id, kind) >= 0 ==> PayloadAt(steps[..n], Last(steps[..n], id, kind)) == PayloadAt(steps, Last(steps[..n], id, kind))
  {
  }

  lemma EvictedStep(steps: seq<Step>, id: nat, i: int)
    requires -1 <= i < |steps|
    ensures
      var n := |steps| - 1;
      EvictedSince(steps, id, i) <==> i < n && (Evicts(steps[n], id) || EvictedSince(steps[..n], id, i))
  {
    var n := |steps| - 1;
    if i < n && EvictedSince(steps[..n], id, i) {
      var j :| 0 <= j < n && i < j && Evicts(steps[..n][j], id);
      assert Evicts(steps[j], id);
    }
    if EvictedSince(steps, id, i) {
      var j :| 0 <= j < |steps| && i < j && Evicts(steps[j], id);
      assert j < n ==> Evicts(steps[..n][j], id);
    }
  }

  /**
   * A message is cached exactly when it was written and not evicted since, and
   * then the cache holds the last create or update, stored or not.
   */
  lemma {:induction false} CacheHoldsLastWrite(steps: seq<Step>, open: bool, id: nat)
    ensures
      var i := Last(steps, id, AnyWrite);
      Find(Run(steps, open).cache, id) ==
      if i >= 0 && !EvictedSince(steps, id, i)
      then Some(Cached(id, PayloadAt(steps, i).channelId, None, PayloadAt(steps, i).content, 0)) else None
  {
    if steps != [] {
      var n := |steps| - 1;
      CacheHoldsLastWrite(steps[..n], open, id);
      StepOnCache(Run(steps[..n], open), steps[n], open, id);
      LastStep(steps, id, AnyWrite);
      EvictedStep(steps, id, Last(steps, id, AnyWrite));
    }
  }

  /**
   * Rows exist exactly for messages with a stored create. A row keeps what
   * that create wrote, except for the content, which is the last one stored.
   */
  lemma {:induction false} RowsHoldLastStoredWrite(steps: seq<Step>, open: bool, id: nat)
    ensures
      var c, w := Last(steps, id, StoredCreate), Last(steps, id, StoredWrite);
      && c <= w
      && Find(Run(steps, open).messages, id) ==
         if c < 0 then None
         else
           var created := PayloadAt(steps, c);
           Some(MessageRow(created.channelId, created.authorId, PayloadAt(steps, w).content, 0, created))
  {
    if steps != [] {
      var n := |steps| - 1;
      RowsHoldLastStoredWrite(steps[..n], open, id);
      StepOnRow(Run(steps[..n], open), steps[n], open, id);
      LastStep(steps, id, StoredCreate);
      LastStep(steps, id, StoredWrite);
    }
  }

  /** An edit never reaches the serialised payload kept beside the content. */
  lemma RawIsNeverEdited(steps: seq<Step>, open: bool, id: nat)
    requires id in Run(steps, open).messages
    ensures Last(steps, id, StoredCreate) >= 0
    ensures Run(steps, open).messages[id].raw == PayloadAt(steps, Last(steps, id, StoredCreate))
  {
    RowsHoldLastStoredWrite(steps, open, id);
  }

  ghost predicate AllStored(steps: seq<Step>) {
    forall k :: 0 <= k < |steps| ==> steps[k].Deliver? ==> StorageOk(steps[k].ev, steps[k].failAt)
  }

  /** Where cache and database both know a message, when do they agree on it? */
  lemma AgreementCondition(steps: seq<Step>, open: bool, id: nat)
    requires id in Run(steps, open).cache && id in Run(steps, open).messages
    ensures
      var a, w := Last(steps, id, AnyWrite), Last(steps, id, StoredWrite);
      && 0 <= w <= a
      && (Run(steps, open).cache[id].content == Run(steps, open).messages[id].content
          <==> PayloadAt(steps, a).content == PayloadAt(steps, w).content)
  {
    CacheHoldsLastWrite(steps, open, id);
    RowsHoldLastStoredWrite(steps, open, id);
    StoredIsWritten(steps, id);
  }

  lemma {:induction false} StoredIsWritten(steps: seq<Step>, id: nat)
    ensures Last(steps, id, StoredWrite) <= Last(steps, id, AnyWrite)
    ensures AllStored(steps) ==> Last(steps, id, StoredWrite) == Last(steps, id, AnyWrite)
  {
    if steps != [] {
      StoredIsWritten(steps[..|steps| - 1], id);
      assert AllStored(steps) ==> AllStored(steps[..|steps| - 1]);
    }
  }

  /** With a working database the two stores never disagree, evictions or not. */
  lemma StoresAgree(steps: seq<Step>, open: bool, id: nat)
    requires AllStored(steps)
    requires id in Run(steps, open).cache && id in Run(steps, open).messages
    ensures Run(steps, open).cache[id].content == Run(steps, open).messages[id].content
  {
    AgreementCondition(steps, open, id);
    StoredIsWritten(steps, id);
  }

  lemma RunAppend(steps: seq<Step>, step: Step, open: bool)
    ensures Run(steps + [step], open) == After(Run(steps, open), step, open)
  {
    assert (steps + [step])[..|steps|] == steps;
  }

  /**
   * The cache is written first, so a failed statement leaves it ahead of the
   * row, after any history in which the message was stored with other text.
   */
  lemma FailedUpdateDisagrees(steps: seq<Step>, open: bool, m: Message, failAt: nat)
    requires failAt < 2
    requires m.id in Run(steps, open).messages && Run(steps, open).messages[m.id].content != m.content
    ensures
      var s := Run(steps + [Deliver(MessageUpdate(m), failAt)], open);
      m.id in s.cache && m.id in s.messages && s.cache[m.id].content != s.messages[m.id].content
  {
    RunAppend(steps, Deliver(MessageUpdate(m), failAt), open);
  }

  /** An edit of a message never stored is cached and announced, but gets no row. */
  lemma UpdateOfUnseenMessage(steps: seq<Step>, m: Message, failAt: nat)
    requires Last(steps, m.id, StoredCreate) == -1 && failAt >= 2
    ensures
      var s := Run(steps + [Deliver(MessageUpdate(m), failAt)], true);
      && m.id in s.cache && m.id !in s.messages
      && s.log == Run(steps, true).log + [MessageEdited(m.channelId, m.id)]
  {
    RunAppend(steps, Deliver(MessageUpdate(m), failAt), true);
    RowsHoldLastStoredWrite(steps, true, m.id);
  }

  // --------------------------------------------------------------- the log

  /** The announcement an event is due once all its statements have succeeded. */
  function Announcement(step: Step): seq<IpcEvent> {
    match step
    case Deliver(ev, failAt) =>
      if !StorageOk(ev, failAt) then []
      else
        (match ev
         case MessageCreate(m) => [MessageCreated(m.channelId, m.id)]
         case MessageUpdate(m) => [MessageEdited(m.channelId, m.id)]
         case Ready(user, _) => [LoginSuccess(user)]
         case _ => [])
    case Eviction(_) => []
  }

  function Announcements(steps: seq<Step>): seq<IpcEvent> {
    if steps == [] then [] else Announcements(steps[..|steps| - 1]) + Announcement(steps[|steps| - 1])
  }

  /** An open channel carries exactly the announcements that are due, in order. */
  lemma {:induction false} LogIsAnnouncements(steps: seq<Step>)
    ensures Run(steps, true).log == Announcements(steps)
    ensures Run(steps, false).log == []
  {
    if steps != [] {
      var n := |steps| - 1;
      LogIsAnnouncements(steps[..n]);
      StepOnLog(Run(steps[..n], true), steps[n], true);
      StepOnLog(Run(steps[..n], false), steps[n], false);
    }
  }

  /** Whether anybody listens makes no difference to what is stored. */
  lemma {:induction false} ChannelDoesNotInterfere(steps: seq<Step>)
    ensures SameStored(Run(steps, true), Run(steps, false))
  {
    if steps != [] {
      var n := |steps| - 1;
      ChannelDoesNotInterfere(steps[..n]);
      StepIgnoresLog(Run(steps[..n], true), Run(steps[..n], false), steps[n]);
    }
  }

  /**
   * Only the reply differs: once stored, an event that is announced is
   * answered with an error if the channel is closed.
   */
  lemma ReplyTellsChannel(s: Stores, ev: Event, failAt: nat, open: bool)
    ensures Handle(s, ev, failAt, open).1 ==
            if !StorageOk(ev, failAt) then StorageError
            else if !open && Announcement(Deliver(ev, failAt)) != [] then ChannelClosed
            else Fine
  {
  }

  /** Every announced creation has its row, after every event of every run. */
  lemma {:induction false} AnnouncedHasRow(steps: seq<Step>, k: nat)
    requires k < |Run(steps, true).log| && Run(steps, true).log[k].MessageCreated?
    ensures Run(steps, true).log[k].messageId in Run(steps, true).messages
  {
    if steps != [] {
      var n := |steps| - 1;
      var before := Run(steps[..n], true);
      var id := Run(steps, true).log[k].messageId;
      StepOnLog(before, steps[n], true);
      StepOnRow(before, steps[n], true, id);
      if k < |before.log| {
        AnnouncedHasRow(steps[..n], k);
      } else {
        assert Run(steps, true).log[k] == Announcement(steps[n])[0];
        assert Is(steps[n], id, StoredCreate);
      }
    }
  }

  // ----------------------------------------------------- guilds and channels

  /** The row a step leaves for guild `id`, if it writes one. */
  function GuildWrite(step: Step, id: nat): Option<GuildRow> {
    match step
    case Deliver(GuildAvailable(g), failAt) => if failAt >= 2 && g.id == id then Some(GuildRowOf(g)) else None
    case Deliver(GuildUnavailable(g), failAt) => if failAt >= 2 && g == id then Some(PLACEHOLDER) else None
    case Deliver(Ready(_, ids), failAt) =>
      if failAt >= 1 && id in ids[..Min(|ids|, failAt - 1)] then Some(PLACEHOLDER) else None
    case _ => None
  }

  function LastGuildWrite(steps: seq<Step>, id: nat): Option<GuildRow> {
    if steps == [] then None
    else
      match GuildWrite(steps[|steps| - 1], id)
      case Some(row) => Some(row)
      case None => LastGuildWrite(steps[..|steps| - 1], id)
  }

  lemma {:induction false} PlacedGuilds(rows: map<nat, GuildRow>, ids: seq<nat>, id: nat)
    ensures Find(PlaceGuilds(rows, ids), id) == if id in ids then Some(PLACEHOLDER) else Find(rows, id)
  {
    if ids != [] {
      PlacedGuilds(rows, ids[..|ids| - 1], id);
      assert ids == ids[..|ids| - 1] + [ids[|ids| - 1]];
    }
  }

  /** The guild table holds, for every guild, the last row written for it. */
  lemma {:induction false} GuildsHoldLastWrite(steps: seq<Step>, open: bool, id: nat)
    ensures Find(Run(steps, open).guilds, id) == LastGuildWrite(steps, id)
  {
    if steps != [] {
      var n := |steps| - 1;
      GuildsHoldLastWrite(steps[..n], open, id);
      match steps[n] {
        case Deliver(Ready(_, ids), failAt) =>
          if failAt >= 1 {
            PlacedGuilds(Run(steps[..n], open).guilds, ids[..Min(|ids|, failAt - 1)], id);
          }
        case _ =>
      }
    }
  }

  /** A READY naming a guild wipes the row a GUILD_CREATE had filled. */
  lemma ReadyErasesGuild(steps: seq<Step>, g: Guild, failAt: nat, user: nat, ids: seq<nat>, readyFailAt: nat, open: bool)
    requires StorageOk(GuildAvailable(g), failAt) && StorageOk(Ready(user, ids), readyFailAt) && g.id in ids
    ensures
      var filled := steps + [Deliver(GuildAvailable(g), failAt)];
      && Find(Run(filled, open).guilds, g.id) == Some(GuildRow(g.name, Some(g.ownerId), g.icon, Some(g)))
      && Find(Run(filled + [Deliver(Ready(user, ids), readyFailAt)], open).guilds, g.id) == Some(GuildRow("", None, None, None))
  {
    var filled := steps + [Deliver(GuildAvailable(g), failAt)];
    GuildsHoldLastWrite(filled, open, g.id);
    GuildsHoldLastWrite(filled + [Deliver(Ready(user, ids), readyFailAt)], open, g.id);
    assert ids[..Min(|ids|, readyFailAt - 1)] == ids;
  }

  /** The row due to the last channel with this id in a list; a channel without guild gets guild 0. */
  function LastChannel(cs: seq<Channel>, id: nat): Option<ChannelRow> {
    if cs == [] then None
    else
      var c := cs[|cs| - 1];
      if c.id != id then LastChannel(cs[..|cs| - 1], id)
      else Some(ChannelRow(if c.guildId == None then 0 else c.guildId.value, c.name, c.kind, c))
  }

  function ChannelWrite(step: Step, id: nat): Option<ChannelRow> {
    match step
    case Deliver(GuildAvailable(g), failAt) =>
      if failAt >= 2 then LastChannel(g.channels[..Min(|g.channels|, failAt - 2)], id) else None
    case _ => None
  }

  function LastChannelWrite(steps: seq<Step>, id: nat): Option<ChannelRow> {
    if steps == [] then None
    else
      match ChannelWrite(steps[|steps| - 1], id)
      case Some(row) => Some(row)
      case None => LastChannelWrite(steps[..|steps| - 1], id)
  }

  lemma {:induction false} WrittenChannels(rows: map<nat, ChannelRow>, cs: seq<Channel>, id: nat)
    ensures Find(WriteChannels(rows, cs), id) ==
            if LastChannel(cs, id).Some? then LastChannel(cs, id) else Find(rows, id)
  {
    if cs != [] {
      WrittenChannels(rows, cs[..|cs| - 1], id);
    }
  }

  /** The channel table holds the last row written, even when a guild write broke off midway. */
  lemma {:induction false} ChannelsHoldLastWrite(steps: seq<Step>, open: bool, id: nat)
    ensures Find(Run(steps, open).channels, id) == LastChannelWrite(steps, id)
  {
    if steps != [] {
      var n := |steps| - 1;
      ChannelsHoldLastWrite(steps[..n], open, id);
      match steps[n] {
        case Deliver(GuildAvailable(g), failAt) =>
          if failAt >= 2 {
            WrittenChannels(Run(steps[..n], open).channels, g.channels[..Min(|g.channels|, failAt - 2)], id);
          }
        case _ =>
      }
    }
  }
}
