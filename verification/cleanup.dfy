/** The `cleanup_old_sessions` management command: deleting the messages of
    every chat session that has been inactive for a number of hours. */
module Cleanup {
  import Ordering
  import Conversation

  /** Default value of `--hours`. */
  const DefaultHours: int := 2
  const SecondsPerHour: int := 3600

  /** `timezone.now() - timedelta(hours=hours)`, timestamps in seconds. */
  function Cutoff(now: int, hours: int): int {
    now - hours * SecondsPerHour
  }

  /** `values('session_key')` grouped by key: every session that has a
      message, each once, in first-seen order. */
  function SessionKeys(db: Conversation.Table): (r: seq<string>)
    ensures Ordering.NoDup(r)
    ensures forall k | k in r :: exists i | 0 <= i < |db| :: db[i].session == k
    ensures forall i | 0 <= i < |db| :: db[i].session in r
  {
    var all := seq(|db|, i requires 0 <= i < |db| => db[i].session);
    assert forall i | 0 <= i < |db| :: db[i].session == all[i];
    Ordering.Dedup(all)
  }

  /** `Max('created_at')` over a non-empty group of messages. */
  function LastActivity(ms: seq<Conversation.Message>): (r: int)
    requires |ms| > 0
    ensures forall m | m in ms :: m.createdAt <= r
    ensures exists m | m in ms :: m.createdAt == r
  {
    var last := ms[|ms| - 1].createdAt;
    if |ms| == 1 then last
    else
      var init := ms[..|ms| - 1];
      assert ms == init + [ms[|ms| - 1]];
      var prev := LastActivity(init);
      if prev < last then last else prev
  }

  /** `last_message_time__lt=cutoff` for the group of session `key`. */
  function IsStale(db: Conversation.Table, cutoff: int): string -> bool {
    (key: string) =>
      var ms := Conversation.OfSession(db, key);
      |ms| > 0 && LastActivity(ms) < cutoff
  }

  /** The sessions the command selects for deletion. */
  function Selected(db: Conversation.Table, cutoff: int): (r: seq<string>)
    ensures Ordering.NoDup(r)
  {
    var keys := SessionKeys(db);
    var r := Ordering.Filter(keys, IsStale(db, cutoff));
    Ordering.FilterNoDup(keys, IsStale(db, cutoff));
    r
  }

  /** A session is selected exactly when it has a message and all of its
      messages are strictly older than the cutoff. */
  lemma SelectedIff(db: Conversation.Table, cutoff: int, key: string)
    ensures key in Selected(db, cutoff) <==>
      (exists i | 0 <= i < |db| :: db[i].session == key)
      && (forall m | m in db && m.session == key :: m.createdAt < cutoff)
  {
    var ms := Conversation.OfSession(db, key);
    if key in Selected(db, cutoff) {
      assert IsStale(db, cutoff)(key);
      var w :| w in ms && w.createdAt == LastActivity(ms);
      var i :| 0 <= i < |db| && db[i] == w;
    }
    if (exists i | 0 <= i < |db| :: db[i].session == key)
       && (forall m | m in db && m.session == key :: m.createdAt < cutoff) {
      var i :| 0 <= i < |db| && db[i].session == key;
      assert db[i] in ms;
      var w :| w in ms && w.createdAt == LastActivity(ms);
      assert IsStale(db, cutoff)(key);
    }
  }

  /** A session with a message at or after the cutoff is never selected. */
  lemma RecentSessionNotSelected(db: Conversation.Table, cutoff: int, m: Conversation.Message)
    requires m in db && m.createdAt >= cutoff
    ensures m.session !in Selected(db, cutoff)
  {
    SelectedIff(db, cutoff, m.session);
  }

  function InKeys(keys: seq<string>): Conversation.Message -> bool {
    (m: Conversation.Message) => m.session in keys
  }

  function NotInKeys(keys: seq<string>): Conversation.Message -> bool {
    (m: Conversation.Message) => m.session !in keys
  }

  /** What the command reports. */
  datatype Report =
    | NothingToClean
    | WouldClean(sessions: nat, messages: nat)
    | Cleaned(sessions: nat, deleted: nat)

  /** `Command.handle` with options `--hours` and `--dry-run`. */
  function Sweep(db: Conversation.Table, now: int, hours: int, dryRun: bool)
    : (r: (Conversation.Table, Report))
    ensures var keys := Selected(db, Cutoff(now, hours));
      && (r.1.NothingToClean? <==> |keys| == 0)
      && (r.1.NothingToClean? || dryRun ==> r.0 == db)
      && (r.1.WouldClean? <==> |keys| > 0 && dryRun)
      && (r.1.WouldClean? ==> r.1.sessions == |keys| && r.1.messages == |Ordering.Filter(db, InKeys(keys))|)
      && (r.1.Cleaned? ==> r.1.sessions == |keys| && r.1.deleted == |Ordering.Filter(db, InKeys(keys))|)
      && (r.1.Cleaned? ==> r.1.deleted + |r.0| == |db|)
      && (r.1.Cleaned? ==> forall m | m in r.0 :: m in db && m.session !in keys)
      && (r.1.Cleaned? ==> forall m | m in db && m.session !in keys :: m in r.0)
  {
    var keys := Selected(db, Cutoff(now, hours));
    if |keys| == 0 then (db, NothingToClean)
    else
      var doomed := Ordering.Filter(db, InKeys(keys));
      if dryRun then (db, WouldClean(|keys|, |doomed|))
      else
        var kept := Ordering.Filter(db, NotInKeys(keys));
        Ordering.FilterCount(db, InKeys(keys), NotInKeys(keys));
        (kept, Cleaned(|keys|, |doomed|))
  }

  /** A dry run announces exactly the number of messages a real run deletes. */
  lemma DryRunPredictsDeletion(db: Conversation.Table, now: int, hours: int)
    ensures Sweep(db, now, hours, true).1.WouldClean? <==> Sweep(db, now, hours, false).1.Cleaned?
    ensures Sweep(db, now, hours, true).1.WouldClean? ==>
      Sweep(db, now, hours, true).1.messages == Sweep(db, now, hours, false).1.deleted
  {
  }

  /** After a real run, selected sessions have no messages left and every
      other session keeps its messages, in order. */
  lemma SweepFrame(db: Conversation.Table, now: int, hours: int, key: string)
    ensures var r := Sweep(db, now, hours, false);
      key in Selected(db, Cutoff(now, hours)) ==> Conversation.OfSession(r.0, key) == []
    ensures var r := Sweep(db, now, hours, false);
      key !in Selected(db, Cutoff(now, hours)) ==>
        Conversation.OfSession(r.0, key) == Conversation.OfSession(db, key)
  {
    var keys := Selected(db, Cutoff(now, hours));
    var r := Sweep(db, now, hours, false);
    if key in keys {
      Ordering.FilterNone(r.0, Conversation.InSession(key));
    } else if |keys| > 0 {
      Ordering.FilterNarrow(db, NotInKeys(keys), Conversation.InSession(key));
    }
  }

  /** A session active at or after the cutoff keeps all of its messages,
      whatever the mode. */
  lemma ActiveSessionKept(db: Conversation.Table, now: int, hours: int, dryRun: bool,
                          m: Conversation.Message)
    requires m in db && m.createdAt >= Cutoff(now, hours)
    ensures Conversation.OfSession(Sweep(db, now, hours, dryRun).0, m.session) ==
            Conversation.OfSession(db, m.session)
  {
    RecentSessionNotSelected(db, Cutoff(now, hours), m);
    SweepFrame(db, now, hours, m.session);
  }
}
