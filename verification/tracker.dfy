/**
 * One pass of the background tracker. The pass indexes the table by account
 * (username -> the chats that watch it), fetches the latest tweet of every
 * watched account once, and for each watcher whose stored tweet id differs
 * from the fetched one sends a notice and stores the fetched id.
 *
 * Fetching is an oracle `fetch`: None stands for every way the fetch can
 * fail (bad status, no `/status/` link, an exception).
 */
module Tracker {

  import opened Dicts
  import opened Store
  import opened Scrape

  /** username -> the chats watching it, in table order. */
  type WatchMap = Dict<string, seq<UserId>>

  ghost predicate Distinct<T>(s: seq<T>) {
    forall i, j :: 0 <= i < j < |s| ==> s[i] != s[j]
  }

  /** `watch_map.setdefault(name, []).append(uid)` */
  function AddWatch(wm: WatchMap, name: string, uid: UserId): (r: WatchMap)
    ensures forall m :: GetOr(r, m, []) == if m == name then GetOr(wm, m, []) + [uid] else GetOr(wm, m, [])
    ensures forall m :: m in Keys(r) <==> m in Keys(wm) || m == name
    ensures DistinctKeys(wm) ==> DistinctKeys(r)
  {
    Put(wm, name, GetOr(wm, name, []) + [uid])
  }

  /** Registers `uid` as a watcher of each of `accounts`, in order. */
  function WatchUser(wm: WatchMap, uid: UserId, accounts: Dict<string, Account>): (r: WatchMap)
    ensures DistinctKeys(wm) ==> DistinctKeys(r)
  {
    if accounts == [] then wm
    else AddWatch(WatchUser(wm, uid, accounts[..|accounts| - 1]), accounts[|accounts| - 1].0, uid)
  }

  /** The watch map the tracker builds from the table, user by user. */
  function WatchMapOf(data: Data): (wm: WatchMap)
    ensures DistinctKeys(wm)
  {
    if data == [] then []
    else WatchUser(WatchMapOf(data[..|data| - 1]), data[|data| - 1].0, data[|data| - 1].1.accounts)
  }

  /** The users whose accounts include `name`, in table order. */
  function Watchers(data: Data, name: string): seq<UserId> {
    if data == [] then []
    else
      var last := data[|data| - 1];
      Watchers(data[..|data| - 1], name) + (if name in Keys(last.1.accounts) then [last.0] else [])
  }

  /** Number of (account, watcher) pairs in a watch map. */
  function TotalWatchers(wm: WatchMap): nat {
    if wm == [] then 0
    else TotalWatchers(wm[..|wm| - 1]) + |wm[|wm| - 1].1|
  }

  /** Registering one user appends it to the list of each of its accounts, once. */
  lemma {:induction false} WatchUserList(wm: WatchMap, uid: UserId, accounts: Dict<string, Account>, m: string)
    requires DistinctKeys(accounts)
    ensures GetOr(WatchUser(wm, uid, accounts), m, []) == GetOr(wm, m, []) + (if m in Keys(accounts) then [uid] else [])
    decreases |accounts|
  {
    if accounts != [] {
      var init := accounts[..|accounts| - 1];
      var last := accounts[|accounts| - 1].0;
      DropLast(accounts, last);
      WatchUserList(wm, uid, init, m);
      var before := WatchUser(wm, uid, init);
      assert WatchUser(wm, uid, accounts) == AddWatch(before, last, uid);
      KeysOfInit(accounts);
      if m == last {
        assert m !in Keys(init);
        assert GetOr(before, m, []) == GetOr(wm, m, []);
      } else {
        assert (m in Keys(accounts)) == (m in Keys(init));
      }
    }
  }

  /** Registering one user adds a key for each of its accounts. */
  lemma {:induction false} WatchUserKeys(wm: WatchMap, uid: UserId, accounts: Dict<string, Account>, m: string)
    ensures m in Keys(WatchUser(wm, uid, accounts)) <==> m in Keys(wm) || m in Keys(accounts)
    decreases |accounts|
  {
    if accounts != [] {
      var init := accounts[..|accounts| - 1];
      WatchUserKeys(wm, uid, init, m);
      KeysOfInit(accounts);
    }
  }

  /**
   * The watch map lists, under each username, exactly the users watching
   * it in table order, and holds a key for every watched account and no other.
   */
  lemma {:induction false} WatchMapLists(data: Data)
    requires WellFormed(data)
    ensures forall m :: GetOr(WatchMapOf(data), m, []) == Watchers(data, m)
    ensures forall m :: m in Keys(WatchMapOf(data)) <==> Watchers(data, m) != []
  {
    if data != [] {
      var init := data[..|data| - 1];
      var last := data[|data| - 1];
      DropLastUser(data);
      WatchMapLists(init);
      forall m ensures GetOr(WatchMapOf(data), m, []) == Watchers(data, m)
        && (m in Keys(WatchMapOf(data)) <==> Watchers(data, m) != [])
      {
        WatchUserList(WatchMapOf(init), last.0, last.1.accounts, m);
        WatchUserKeys(WatchMapOf(init), last.0, last.1.accounts, m);
      }
    }
  }

  /** A user is listed under `name` exactly when it watches `name`, and only once. */
  lemma {:induction false} WatchersExact(data: Data, name: string)
    requires WellFormed(data)
    ensures forall u :: u in Watchers(data, name) <==> Lookup(data, u, name).Some?
    ensures Distinct(Watchers(data, name))
  {
    if data != [] {
      var init := data[..|data| - 1];
      var last := data[|data| - 1];
      DropLastUser(data);
      WatchersExact(init, name);
      assert Lookup(init, last.0, name).None?;
    }
  }

  /** Overwriting one list changes the total by the difference in its length. */
  lemma {:induction false} TotalWatchersAfterUpdate(wm: WatchMap, i: nat, ws: seq<UserId>)
    requires i < |wm|
    ensures TotalWatchers(wm[i := (wm[i].0, ws)]) == TotalWatchers(wm) - |wm[i].1| + |ws|
    decreases |wm|
  {
    var r := wm[i := (wm[i].0, ws)];
    var n := |wm| - 1;
    if i < n {
      assert r[..n] == wm[..n][i := (wm[i].0, ws)];
      TotalWatchersAfterUpdate(wm[..n], i, ws);
    } else {
      assert r[..n] == wm[..n];
    }
  }

  lemma TotalWatchersAfterAdd(wm: WatchMap, name: string, uid: UserId)
    requires DistinctKeys(wm)
    ensures TotalWatchers(AddWatch(wm, name, uid)) == TotalWatchers(wm) + 1
  {
    var ws := GetOr(wm, name, []) + [uid];
    match IndexOf(wm, name)
    case None =>
      assert AddWatch(wm, name, uid) == wm + [(name, ws)];
      assert (wm + [(name, ws)])[..|wm|] == wm;
    case Some(i) =>
      GetAt(wm, i);
      TotalWatchersAfterUpdate(wm, i, ws);
  }

  lemma {:induction false} TotalWatchersOfUser(wm: WatchMap, uid: UserId, accounts: Dict<string, Account>)
    requires DistinctKeys(wm)
    ensures TotalWatchers(WatchUser(wm, uid, accounts)) == TotalWatchers(wm) + |accounts|
    decreases |accounts|
  {
    if accounts != [] {
      var init := accounts[..|accounts| - 1];
      TotalWatchersOfUser(wm, uid, init);
      TotalWatchersAfterAdd(WatchUser(wm, uid, init), accounts[|accounts| - 1].0, uid);
    }
  }

  /** The watch map has one entry per (account, watcher) pair: as many as `stats` counts. */
  lemma {:induction false} WatchMapTotal(data: Data)
    ensures TotalWatchers(WatchMapOf(data)) == TotalAccounts(data)
  {
    if data != [] {
      var init := data[..|data| - 1];
      WatchMapTotal(init);
      TotalWatchersOfUser(WatchMapOf(init), data[|data| - 1].0, data[|data| - 1].1.accounts);
    }
  }

  /** A notification sent to `chat` about tweet `tweetId` of `account`. */
  datatype Notice = Notice(chat: UserId, account: string, tweetId: string, text: string)

  /** The table as the pass holds it in memory, and the notices sent so far. */
  datatype Cycle = Cycle(data: Data, sent: seq<Notice>)

  /** The stored tweet id of `name` for `uid`; None when there is none or no entry. */
  function Cursor(data: Data, uid: UserId, name: string): Option<string> {
    match Lookup(data, uid, name)
    case Some(acc) => acc.lastTweetId
    case None => None
  }

  /**
   * The inner step for watcher `uid` of `name`, whose latest tweet is `t`:
   * make sure the user has an entry; if its stored id is not `t.id`, send
   * the notice and store `t.id` (whether or not the send succeeds).
   */
  function Visit(c: Cycle, name: string, t: Tweet, uid: UserId): Cycle {
    var data := EnsureUser(c.data, uid);
    if Cursor(data, uid, name) != Some(t.id) then
      Cycle(WithAccounts(data, uid, Put(AccountsOf(data, uid), name, Account(Some(t.id)))),
            c.sent + [Notice(uid, name, t.id, Message(name, t))])
    else
      Cycle(data, c.sent)
  }

  /** The inner loop over the watchers of `name`. */
  function VisitAll(c: Cycle, name: string, t: Tweet, watchers: seq<UserId>): Cycle {
    if watchers == [] then c
    else Visit(VisitAll(c, name, t, watchers[..|watchers| - 1]), name, t, watchers[|watchers| - 1])
  }

  /** One entry of the watch map: a failed fetch skips it. */
  function Track(c: Cycle, name: string, watchers: seq<UserId>, fetched: Option<Tweet>): Cycle {
    match fetched
    case None => c
    case Some(t) => VisitAll(c, name, t, watchers)
  }

  /** The outer loop over the watch map, in its order. */
  function PassOver(c: Cycle, wm: WatchMap, fetch: string -> Option<Tweet>): Cycle {
    if wm == [] then c
    else
      var last := wm[|wm| - 1];
      Track(PassOver(c, wm[..|wm| - 1], fetch), last.0, last.1, fetch(last.0))
  }

  /** A whole pass over the loaded table. */
  function Pass(data: Data, fetch: string -> Option<Tweet>): Cycle {
    PassOver(Cycle(data, []), WatchMapOf(data), fetch)
  }

  /** The same users and accounts in the same order, and the same meta. */
  ghost predicate SameShape(d: Data, e: Data) {
    && Keys(d) == Keys(e)
    && (forall u :: Keys(AccountsOf(d, u)) == Keys(AccountsOf(e, u)))
    && (forall u :: GetOr(d, u, NewUser).meta == GetOr(e, u, NewUser).meta)
  }

  /** Watcher `uid` of `name` is due a notice: it watches `name` and holds another id. */
  ghost predicate Stale(data: Data, uid: UserId, name: string, id: string) {
    Lookup(data, uid, name).Some? && Cursor(data, uid, name) != Some(id)
  }

  /** No two notices go to the same chat about the same account. */
  ghost predicate DistinctPairs(sent: seq<Notice>) {
    forall i, j :: 0 <= i < j < |sent| ==> sent[i].chat != sent[j].chat || sent[i].account != sent[j].account
  }

  /** Every listed watcher watches the account it is listed under. */
  ghost predicate Covers(data: Data, wm: WatchMap) {
    forall k, u :: u in GetOr(wm, k, []) ==> Lookup(data, u, k).Some?
  }

  /** Every listed watcher of an account that fetches already holds the fetched id. */
  ghost predicate Current(data: Data, wm: WatchMap, fetch: string -> Option<Tweet>) {
    forall k, u :: u in GetOr(wm, k, []) && fetch(k).Some? ==>
      Lookup(data, u, k) == Some(Account(Some(fetch(k).value.id)))
  }

  /**
   * One visit stores `t.id` for `uid` and `name` and touches no other entry;
   * it sends one notice exactly when the stored id differed.
   */
  lemma VisitEffect(c: Cycle, name: string, t: Tweet, uid: UserId)
    ensures forall u, m :: Lookup(Visit(c, name, t, uid).data, u, m) == if u == uid && m == name then Some(Account(Some(t.id))) else Lookup(c.data, u, m)
    ensures Visit(c, name, t, uid).sent == c.sent +
      if Cursor(c.data, uid, name) != Some(t.id) then [Notice(uid, name, t.id, Message(name, t))] else []
    ensures WellFormed(c.data) ==> WellFormed(Visit(c, name, t, uid).data)
  {
    VisitLookups(c, name, t, uid);
    VisitSends(c, name, t, uid);
    VisitWellFormed(c, name, t, uid);
  }

  lemma VisitLookups(c: Cycle, name: string, t: Tweet, uid: UserId)
    ensures forall u, m :: Lookup(Visit(c, name, t, uid).data, u, m) == if u == uid && m == name then Some(Account(Some(t.id))) else Lookup(c.data, u, m)
  {
    var data := EnsureUser(c.data, uid);
    assert Cursor(data, uid, name) == Cursor(c.data, uid, name);
    if Cursor(data, uid, name) == Some(t.id) {
      assert Lookup(c.data, uid, name) == Some(Account(Some(t.id)));
    }
  }

  lemma VisitSends(c: Cycle, name: string, t: Tweet, uid: UserId)
    ensures Visit(c, name, t, uid).sent == c.sent +
      if Cursor(c.data, uid, name) != Some(t.id) then [Notice(uid, name, t.id, Message(name, t))] else []
  {
    var data := EnsureUser(c.data, uid);
    assert Cursor(data, uid, name) == Cursor(c.data, uid, name);
  }

  lemma VisitWellFormed(c: Cycle, name: string, t: Tweet, uid: UserId)
    ensures WellFormed(c.data) ==> WellFormed(Visit(c, name, t, uid).data)
  {
    var data := EnsureUser(c.data, uid);
    var accounts := AccountsOf(data, uid);
    if WellFormed(c.data) && Cursor(data, uid, name) != Some(t.id) {
      var r := WithAccounts(data, uid, Put(accounts, name, Account(Some(t.id))));
      forall v ensures DistinctKeys(AccountsOf(r, v)) {
        if v != uid {
          assert AccountsOf(r, v) == AccountsOf(data, v);
        }
      }
    }
  }

  /** A visit to a watcher of `name` keeps the shape of the table and its total. */
  lemma VisitKeepsShape(c: Cycle, name: string, t: Tweet, uid: UserId)
    requires WellFormed(c.data) && Lookup(c.data, uid, name).Some?
    ensures SameShape(Visit(c, name, t, uid).data, c.data)
    ensures TotalAccounts(Visit(c, name, t, uid).data) == TotalAccounts(c.data)
  {
    VisitSameShape(c, name, t, uid);
    VisitSameTotal(c, name, t, uid);
  }

  lemma VisitSameShape(c: Cycle, name: string, t: Tweet, uid: UserId)
    requires WellFormed(c.data) && Lookup(c.data, uid, name).Some?
    ensures SameShape(Visit(c, name, t, uid).data, c.data)
  {
    var d := c.data;
    assert uid in Keys(d);
    assert EnsureUser(d, uid) == d;
    if Cursor(d, uid, name) != Some(t.id) {
      var updated := Put(AccountsOf(d, uid), name, Account(Some(t.id)));
      var r := WithAccounts(d, uid, updated);
      assert Visit(c, name, t, uid).data == r;
      assert Keys(updated) == Keys(AccountsOf(d, uid));
      forall u ensures Keys(AccountsOf(r, u)) == Keys(AccountsOf(d, u)) {
      }
      forall u ensures GetOr(r, u, NewUser).meta == GetOr(d, u, NewUser).meta {
        if u != uid {
          assert Get(r, u) == Get(d, u);
        }
      }
    }
  }

  lemma VisitSameTotal(c: Cycle, name: string, t: Tweet, uid: UserId)
    requires WellFormed(c.data) && Lookup(c.data, uid, name).Some?
    ensures TotalAccounts(Visit(c, name, t, uid).data) == TotalAccounts(c.data)
  {
    var accounts := AccountsOf(c.data, uid);
    assert uid in Keys(c.data);
    if Cursor(c.data, uid, name) != Some(t.id) {
      var updated := Put(accounts, name, Account(Some(t.id)));
      assert Keys(updated) == Keys(accounts);
      TotalAfterWithAccounts(c.data, uid, updated);
    }
  }

  /** A watcher that already holds `t.id` is left as it is, and sent nothing. */
  lemma VisitCurrent(c: Cycle, name: string, t: Tweet, uid: UserId)
    requires Lookup(c.data, uid, name) == Some(Account(Some(t.id)))
    ensures Visit(c, name, t, uid) == c
  {
    assert uid in Keys(c.data);
  }

  /** Dropping the last element of a list without duplicates. */
  lemma DistinctInit<T>(s: seq<T>)
    requires Distinct(s) && s != []
    ensures Distinct(s[..|s| - 1])
    ensures s[|s| - 1] !in s[..|s| - 1]
  {
    var init := s[..|s| - 1];
    forall i | 0 <= i < |init| ensures init[i] != s[|s| - 1] {
      assert init[i] == s[i];
    }
  }

  /** The watchers of `name` hold `t.id` after the inner loop; nothing else changes. */
  lemma {:induction false} VisitAllLookups(c: Cycle, name: string, t: Tweet, ws: seq<UserId>)
    ensures forall u, m :: Lookup(VisitAll(c, name, t, ws).data, u, m) == if u in ws && m == name then Some(Account(Some(t.id))) else Lookup(c.data, u, m)
    ensures WellFormed(c.data) ==> WellFormed(VisitAll(c, name, t, ws).data)
  {
    if ws != [] {
      var init := ws[..|ws| - 1];
      var uid := ws[|ws| - 1];
      var before := VisitAll(c, name, t, init);
      var after := Visit(before, name, t, uid);
      assert VisitAll(c, name, t, ws) == after;
      VisitAllLookups(c, name, t, init);
      VisitLookups(before, name, t, uid);
      VisitWellFormed(before, name, t, uid);
      forall u, m ensures Lookup(after.data, u, m) == if u in ws && m == name then Some(Account(Some(t.id))) else Lookup(c.data, u, m) {
        assert u in ws <==> u in init || u == uid;
      }
    }
  }

  /**
   * Over watchers without duplicates, the inner loop sends one notice to each
   * watcher whose stored id differs from `t.id`, and no other.
   */
  lemma {:induction false} VisitAllSent(c: Cycle, name: string, t: Tweet, ws: seq<UserId>, x: Notice)
    requires Distinct(ws)
    ensures x in VisitAll(c, name, t, ws).sent <==> x in c.sent || (x.chat in ws && x == Notice(x.chat, name, t.id, Message(name, t)) && Cursor(c.data, x.chat, name) != Some(t.id))
  {
    if ws != [] {
      var init := ws[..|ws| - 1];
      var uid := ws[|ws| - 1];
      DistinctInit(ws);
      VisitAllSent(c, name, t, init, x);
      var before := VisitAll(c, name, t, init);
      VisitAllLookups(c, name, t, init);
      VisitEffect(before, name, t, uid);
      assert Cursor(before.data, uid, name) == Cursor(c.data, uid, name);
      assert x.chat in ws <==> x.chat in init || x.chat == uid;
    }
  }

  /** The inner loop adds no second notice for a chat and account. */
  lemma {:induction false} VisitAllSentOnce(c: Cycle, name: string, t: Tweet, ws: seq<UserId>)
    requires Distinct(ws)
    requires DistinctPairs(c.sent) && forall x :: x in c.sent ==> x.account != name
    ensures DistinctPairs(VisitAll(c, name, t, ws).sent)
  {
    if ws != [] {
      var init := ws[..|ws| - 1];
      DistinctInit(ws);
      VisitAllSentOnce(c, name, t, init);
      forall x | x in VisitAll(c, name, t, init).sent ensures x.chat != ws[|ws| - 1] || x.account != name {
        VisitAllSent(c, name, t, init, x);
      }
      SendOnceMore(VisitAll(c, name, t, init), name, t, ws[|ws| - 1]);
    }
  }

  /** A visit keeps the notices distinct when none so far went to `uid` about `name`. */
  lemma SendOnceMore(c: Cycle, name: string, t: Tweet, uid: UserId)
    requires DistinctPairs(c.sent)
    requires forall x :: x in c.sent ==> x.chat != uid || x.account != name
    ensures DistinctPairs(Visit(c, name, t, uid).sent)
  {
    VisitSends(c, name, t, uid);
    var extra := if Cursor(c.data, uid, name) != Some(t.id) then [Notice(uid, name, t.id, Message(name, t))] else [];
    AppendFreshNotice(c.sent, extra, uid, name);
  }

  /** Appending at most one notice for a pair not yet notified keeps the pairs distinct. */
  lemma AppendFreshNotice(sent: seq<Notice>, extra: seq<Notice>, uid: UserId, name: string)
    requires DistinctPairs(sent) && |extra| <= 1
    requires forall x :: x in sent ==> x.chat != uid || x.account != name
    requires forall y :: y in extra ==> y.chat == uid && y.account == name
    ensures DistinctPairs(sent + extra)
  {
    var after := sent + extra;
    forall i, j | 0 <= i < j < |after| ensures after[i].chat != after[j].chat || after[i].account != after[j].account {
      if j >= |sent| {
        assert after[i] == sent[i] && sent[i] in sent;
        assert after[j] == extra[0] && extra[0] in extra;
      }
    }
  }

  /** The inner loop over watchers of `name` keeps the shape of the table and its total. */
  lemma VisitAllKeepsShape(c: Cycle, name: string, t: Tweet, ws: seq<UserId>)
    requires WellFormed(c.data) && forall u :: u in ws ==> Lookup(c.data, u, name).Some?
    ensures SameShape(VisitAll(c, name, t, ws).data, c.data)
    ensures TotalAccounts(VisitAll(c, name, t, ws).data) == TotalAccounts(c.data)
  {
    VisitAllSameShape(c, name, t, ws);
    VisitAllSameTotal(c, name, t, ws);
  }

  lemma {:induction false} VisitAllSameShape(c: Cycle, name: string, t: Tweet, ws: seq<UserId>)
    requires WellFormed(c.data) && forall u :: u in ws ==> Lookup(c.data, u, name).Some?
    ensures SameShape(VisitAll(c, name, t, ws).data, c.data)
  {
    if ws != [] {
      var init := ws[..|ws| - 1];
      var before := VisitAll(c, name, t, init);
      VisitAllSameShape(c, name, t, init);
      VisitAllLookups(c, name, t, init);
      VisitSameShape(before, name, t, ws[|ws| - 1]);
      SameShapeTrans(VisitAll(c, name, t, ws).data, before.data, c.data);
    }
  }

  lemma {:induction false} VisitAllSameTotal(c: Cycle, name: string, t: Tweet, ws: seq<UserId>)
    requires WellFormed(c.data) && forall u :: u in ws ==> Lookup(c.data, u, name).Some?
    ensures TotalAccounts(VisitAll(c, name, t, ws).data) == TotalAccounts(c.data)
  {
    if ws != [] {
      var init := ws[..|ws| - 1];
      var before := VisitAll(c, name, t, init);
      VisitAllSameTotal(c, name, t, init);
      VisitAllLookups(c, name, t, init);
      VisitSameTotal(before, name, t, ws[|ws| - 1]);
    }
  }

  lemma SameShapeTrans(d: Data, e: Data, f: Data)
    requires SameShape(d, e) && SameShape(e, f)
    ensures SameShape(d, f)
  {
  }

  /** Watchers that all hold `t.id` already are left as they are, and sent nothing. */
  lemma {:induction false} VisitAllCurrent(c: Cycle, name: string, t: Tweet, ws: seq<UserId>)
    requires forall u :: u in ws ==> Lookup(c.data, u, name) == Some(Account(Some(t.id)))
    ensures VisitAll(c, name, t, ws) == c
  {
    if ws != [] {
      VisitAllCurrent(c, name, t, ws[..|ws| - 1]);
      VisitCurrent(c, name, t, ws[|ws| - 1]);
    }
  }

  /** The watch map without its last entry lists nobody under that entry's name. */
  lemma WatchMapInit(wm: WatchMap, m: string)
    requires DistinctKeys(wm) && wm != []
    ensures DistinctKeys(wm[..|wm| - 1])
    ensures GetOr(wm, wm[|wm| - 1].0, []) == wm[|wm| - 1].1
    ensures GetOr(wm[..|wm| - 1], m, []) == if m == wm[|wm| - 1].0 then [] else GetOr(wm, m, [])
  {
    DropLast(wm, m);
  }

  /**
   * After the outer loop, every watcher listed under an account whose fetch
   * succeeded holds the fetched id, and every other entry is as before.
   */
  lemma {:induction false} PassOverLookups(c: Cycle, wm: WatchMap, fetch: string -> Option<Tweet>)
    requires DistinctKeys(wm)
    ensures forall u, m :: Lookup(PassOver(c, wm, fetch).data, u, m) == if u in GetOr(wm, m, []) && fetch(m).Some? then Some(Account(Some(fetch(m).value.id))) else Lookup(c.data, u, m)
    ensures WellFormed(c.data) ==> WellFormed(PassOver(c, wm, fetch).data)
  {
    if wm != [] {
      var init := wm[..|wm| - 1];
      var k := wm[|wm| - 1].0;
      WatchMapInit(wm, k);
      PassOverLookups(c, init, fetch);
      var before := PassOver(c, init, fetch);
      if fetch(k).Some? {
        VisitAllLookups(before, k, fetch(k).value, wm[|wm| - 1].1);
      }
      forall m ensures GetOr(init, m, []) == if m == k then [] else GetOr(wm, m, []) {
        WatchMapInit(wm, m);
      }
    }
  }

  /**
   * The outer loop sends exactly one notice to each listed watcher of an
   * account whose fetch succeeded and whose stored id differs from the
   * fetched one, with the fetched id and the message for it.
   */
  lemma {:induction false} PassOverSent(c: Cycle, wm: WatchMap, fetch: string -> Option<Tweet>, x: Notice)
    requires DistinctKeys(wm) && c.sent == []
    requires forall k :: Distinct(GetOr(wm, k, []))
    ensures x in PassOver(c, wm, fetch).sent <==>
      && x.chat in GetOr(wm, x.account, [])
      && fetch(x.account).Some?
      && Cursor(c.data, x.chat, x.account) != Some(fetch(x.account).value.id)
      && x == Notice(x.chat, x.account, fetch(x.account).value.id, Message(x.account, fetch(x.account).value))
  {
    if wm != [] {
      var init := wm[..|wm| - 1];
      var k := wm[|wm| - 1].0;
      WatchMapInit(wm, k);
      WatchMapInit(wm, x.account);
      forall m ensures Distinct(GetOr(init, m, [])) {
        WatchMapInit(wm, m);
      }
      PassOverSent(c, init, fetch, x);
      var before := PassOver(c, init, fetch);
      PassOverLookups(c, init, fetch);
      if fetch(k).Some? {
        VisitAllSent(before, k, fetch(k).value, wm[|wm| - 1].1, x);
        assert Cursor(before.data, x.chat, k) == Cursor(c.data, x.chat, k);
      }
    }
  }

  /** The outer loop sends no second notice for a chat and account. */
  lemma {:induction false} PassOverSentOnce(c: Cycle, wm: WatchMap, fetch: string -> Option<Tweet>)
    requires DistinctKeys(wm) && c.sent == []
    requires forall k :: Distinct(GetOr(wm, k, []))
    ensures DistinctPairs(PassOver(c, wm, fetch).sent)
  {
    if wm != [] {
      var init := wm[..|wm| - 1];
      var k := wm[|wm| - 1].0;
      WatchMapInit(wm, k);
      forall m ensures Distinct(GetOr(init, m, [])) {
        WatchMapInit(wm, m);
      }
      PassOverSentOnce(c, init, fetch);
      var before := PassOver(c, init, fetch);
      if fetch(k).Some? {
        forall x | x in before.sent ensures x.account != k {
          PassOverSent(c, init, fetch, x);
        }
        VisitAllSentOnce(before, k, fetch(k).value, wm[|wm| - 1].1);
      }
    }
  }

  /** When every listed watcher watches its account, the outer loop keeps the shape and total. */
  lemma {:induction false} PassOverKeepsShape(c: Cycle, wm: WatchMap, fetch: string -> Option<Tweet>)
    requires DistinctKeys(wm) && WellFormed(c.data) && Covers(c.data, wm)
    ensures SameShape(PassOver(c, wm, fetch).data, c.data)
    ensures TotalAccounts(PassOver(c, wm, fetch).data) == TotalAccounts(c.data)
  {
    if wm != [] {
      var init := wm[..|wm| - 1];
      var k := wm[|wm| - 1].0;
      WatchMapInit(wm, k);
      forall m ensures GetOr(init, m, []) == if m == k then [] else GetOr(wm, m, []) {
        WatchMapInit(wm, m);
      }
      PassOverKeepsShape(c, init, fetch);
      PassOverLookups(c, init, fetch);
      if fetch(k).Some? {
        VisitAllKeepsShape(PassOver(c, init, fetch), k, fetch(k).value, wm[|wm| - 1].1);
      }
    }
  }

  /** When every listed watcher already holds the fetched id, the outer loop does nothing. */
  lemma {:induction false} PassOverCurrent(c: Cycle, wm: WatchMap, fetch: string -> Option<Tweet>)
    requires DistinctKeys(wm) && Current(c.data, wm, fetch)
    ensures PassOver(c, wm, fetch) == c
  {
    if wm != [] {
      var init := wm[..|wm| - 1];
      var k := wm[|wm| - 1].0;
      WatchMapInit(wm, k);
      forall m ensures GetOr(init, m, []) == if m == k then [] else GetOr(wm, m, []) {
        WatchMapInit(wm, m);
      }
      PassOverCurrent(c, init, fetch);
      if fetch(k).Some? {
        VisitAllCurrent(c, k, fetch(k).value, wm[|wm| - 1].1);
      }
    }
  }

  /**
   * In the watch map of a table, `u` is listed under `name` exactly when
   * `u` watches `name`, and no list holds a user twice.
   */
  lemma WatchMapExact(data: Data)
    requires WellFormed(data)
    ensures forall k, u :: u in GetOr(WatchMapOf(data), k, []) <==> Lookup(data, u, k).Some?
    ensures forall k :: Distinct(GetOr(WatchMapOf(data), k, []))
    ensures Covers(data, WatchMapOf(data))
  {
    WatchMapLists(data);
    forall k ensures (forall u :: u in Watchers(data, k) <==> Lookup(data, u, k).Some?) && Distinct(Watchers(data, k)) {
      WatchersExact(data, k);
    }
  }

  /**
   * After a pass, every watcher of an account whose fetch succeeded holds
   * the fetched id; every other entry is as loaded.
   */
  lemma PassLookups(data: Data, fetch: string -> Option<Tweet>)
    requires WellFormed(data)
    ensures forall u, m :: Lookup(Pass(data, fetch).data, u, m) == if Lookup(data, u, m).Some? && fetch(m).Some? then Some(Account(Some(fetch(m).value.id))) else Lookup(data, u, m)
  {
    WatchMapExact(data);
    PassOverLookups(Cycle(data, []), WatchMapOf(data), fetch);
  }

  /**
   * A pass sends a notice to `chat` about `account` exactly when the fetch
   * of `account` succeeded and `chat` watches it with another stored id;
   * the notice carries the fetched id and its message, and no chat gets two
   * notices about one account.
   */
  lemma PassNotices(data: Data, fetch: string -> Option<Tweet>)
    requires WellFormed(data)
    ensures forall x :: x in Pass(data, fetch).sent <==>
      && fetch(x.account).Some?
      && Stale(data, x.chat, x.account, fetch(x.account).value.id)
      && x.tweetId == fetch(x.account).value.id
      && x.text == Message(x.account, fetch(x.account).value)
    ensures DistinctPairs(Pass(data, fetch).sent)
  {
    WatchMapExact(data);
    forall x ensures x in Pass(data, fetch).sent <==>
      && fetch(x.account).Some?
      && Stale(data, x.chat, x.account, fetch(x.account).value.id)
      && x.tweetId == fetch(x.account).value.id
      && x.text == Message(x.account, fetch(x.account).value)
    {
      PassOverSent(Cycle(data, []), WatchMapOf(data), fetch, x);
    }
    PassOverSentOnce(Cycle(data, []), WatchMapOf(data), fetch);
  }

  /**
   * A pass changes stored tweet ids only: the users, their accounts and
   * their order, the meta, the cap and what `/stats` reports are kept.
   */
  lemma PassKeepsTable(data: Data, fetch: string -> Option<Tweet>)
    requires WellFormed(data)
    ensures SameShape(Pass(data, fetch).data, data)
    ensures WellFormed(Pass(data, fetch).data)
    ensures WithinCap(data) ==> WithinCap(Pass(data, fetch).data)
    ensures StatsOf(Pass(data, fetch).data) == StatsOf(data)
  {
    WatchMapExact(data);
    PassOverKeepsShape(Cycle(data, []), WatchMapOf(data), fetch);
    PassOverLookups(Cycle(data, []), WatchMapOf(data), fetch);
    var after := Pass(data, fetch).data;
    forall u ensures |AccountsOf(after, u)| == |AccountsOf(data, u)| {
      assert |Keys(AccountsOf(after, u))| == |Keys(AccountsOf(data, u))|;
    }
    assert |Keys(after)| == |Keys(data)|;
  }

  /** A fetch that fails leaves the stored ids of that account alone and sends nothing about it. */
  lemma FailedFetchChangesNothing(data: Data, fetch: string -> Option<Tweet>, name: string)
    requires WellFormed(data) && fetch(name).None?
    ensures forall u :: Lookup(Pass(data, fetch).data, u, name) == Lookup(data, u, name)
    ensures forall x :: x in Pass(data, fetch).sent ==> x.account != name
  {
    PassLookups(data, fetch);
    PassNotices(data, fetch);
  }

  /**
   * An account with no stored id (one just added) is announced on the first
   * pass whose fetch of it succeeds, whatever tweet it finds.
   */
  lemma FirstFetchNotifies(data: Data, fetch: string -> Option<Tweet>, uid: UserId, name: string)
    requires WellFormed(data) && Lookup(data, uid, name) == Some(Account(None)) && fetch(name).Some?
    ensures Notice(uid, name, fetch(name).value.id, Message(name, fetch(name).value)) in Pass(data, fetch).sent
  {
    PassNotices(data, fetch);
  }

  /** When every watcher already holds the fetched id, a pass changes nothing and sends nothing. */
  lemma PassCurrent(data: Data, fetch: string -> Option<Tweet>)
    requires WellFormed(data)
    requires forall u, m :: Lookup(data, u, m).Some? && fetch(m).Some? ==> Lookup(data, u, m) == Some(Account(Some(fetch(m).value.id)))
    ensures Pass(data, fetch) == Cycle(data, [])
  {
    WatchMapExact(data);
    PassOverCurrent(Cycle(data, []), WatchMapOf(data), fetch);
  }

  /** A second pass that fetches the same tweets changes nothing and sends nothing. */
  lemma PassIdempotent(data: Data, fetch: string -> Option<Tweet>)
    requires WellFormed(data)
    ensures Pass(Pass(data, fetch).data, fetch) == Cycle(Pass(data, fetch).data, [])
  {
    var after := Pass(data, fetch).data;
    PassLookups(data, fetch);
    PassKeepsTable(data, fetch);
    PassCurrent(after, fetch);
  }

  /** A pass leaves the table as loaded exactly when it sends nothing. */
  lemma PassChangesIffNotifies(data: Data, fetch: string -> Option<Tweet>)
    requires WellFormed(data)
    ensures Pass(data, fetch).data == data <==> Pass(data, fetch).sent == []
  {
    var c := Pass(data, fetch);
    PassLookups(data, fetch);
    PassNotices(data, fetch);
    if c.sent != [] {
      var x := c.sent[0];
      assert x in c.sent;
      assert Lookup(c.data, x.chat, x.account) != Lookup(data, x.chat, x.account);
    } else {
      forall u, m | Lookup(data, u, m).Some? && fetch(m).Some?
        ensures Lookup(data, u, m) == Some(Account(Some(fetch(m).value.id)))
      {
        var x := Notice(u, m, fetch(m).value.id, Message(m, fetch(m).value));
        assert x !in c.sent;
      }
      PassCurrent(data, fetch);
    }
  }

  /**
   * The first half of a pass: index the table by account. Each user id is
   * listed under each of its accounts, users in table order.
   */
  method BuildWatchMap(data: Data) returns (wm: WatchMap)
    requires WellFormed(data)
    ensures wm == WatchMapOf(data)
    ensures DistinctKeys(wm)
    ensures forall k, u :: u in GetOr(wm, k, []) <==> Lookup(data, u, k).Some?
    ensures forall k :: Distinct(GetOr(wm, k, []))
    ensures forall k :: k in Keys(wm) ==> GetOr(wm, k, []) != []
    ensures TotalWatchers(wm) == TotalAccounts(data)
  {
    wm := [];
    var i := 0;
    while i < |data|
      invariant 0 <= i <= |data|
      invariant wm == WatchMapOf(data[..i])
    {
      var uid := data[i].0;
      var accounts := data[i].1.accounts;
      var j := 0;
      while j < |accounts|
        invariant 0 <= j <= |accounts|
        invariant wm == WatchUser(WatchMapOf(data[..i]), uid, accounts[..j])
      {
        var name := accounts[j].0;
        wm := Put(wm, name, GetOr(wm, name, []) + [uid]);
        WatchUserStep(WatchMapOf(data[..i]), uid, accounts, j);
        j := j + 1;
      }
      assert accounts[..j] == accounts;
      WatchMapStep(data, i);
      i := i + 1;
    }
    assert data[..i] == data;
    WatchMapFacts(data, wm);
  }

  lemma WatchUserStep(wm: WatchMap, uid: UserId, accounts: Dict<string, Account>, j: nat)
    requires j < |accounts|
    ensures WatchUser(wm, uid, accounts[..j + 1]) == AddWatch(WatchUser(wm, uid, accounts[..j]), accounts[j].0, uid)
  {
    assert accounts[..j + 1][..j] == accounts[..j];
  }

  lemma WatchMapStep(data: Data, i: nat)
    requires i < |data|
    ensures WatchMapOf(data[..i + 1]) == WatchUser(WatchMapOf(data[..i]), data[i].0, data[i].1.accounts)
  {
    assert data[..i + 1][..i] == data[..i];
  }

  lemma WatchMapFacts(data: Data, wm: WatchMap)
    requires WellFormed(data) && wm == WatchMapOf(data)
    ensures DistinctKeys(wm)
    ensures forall k, u :: u in GetOr(wm, k, []) <==> Lookup(data, u, k).Some?
    ensures forall k :: Distinct(GetOr(wm, k, []))
    ensures forall k :: k in Keys(wm) ==> GetOr(wm, k, []) != []
    ensures TotalWatchers(wm) == TotalAccounts(data)
  {
    WatchMapExact(data);
    WatchMapLists(data);
    WatchMapTotal(data);
  }

  lemma VisitAllStep(c: Cycle, name: string, t: Tweet, ws: seq<UserId>, j: nat)
    requires j < |ws|
    ensures VisitAll(c, name, t, ws[..j + 1]) == Visit(VisitAll(c, name, t, ws[..j]), name, t, ws[j])
  {
    assert ws[..j + 1][..j] == ws[..j];
  }

  /**
   * The inner loop of a pass for account `name`, whose latest tweet is `t`:
   * each watcher in turn gets an entry if it had none, and, when its stored
   * id is not `t.id`, a notice and `t.id` stored.
   */
  method NotifyWatchers(data: Data, sent: seq<Notice>, name: string, t: Tweet, watchers: seq<UserId>)
    returns (data': Data, sent': seq<Notice>)
    ensures Cycle(data', sent') == VisitAll(Cycle(data, sent), name, t, watchers)
  {
    data', sent' := data, sent;
    var j := 0;
    while j < |watchers|
      invariant 0 <= j <= |watchers|
      invariant Cycle(data', sent') == VisitAll(Cycle(data, sent), name, t, watchers[..j])
    {
      var uid := watchers[j];
      ghost var before := Cycle(data', sent');
      data' := EnsureUser(data', uid);
      var accounts := AccountsOf(data', uid);
      var last := match Get(accounts, name) case Some(acc) => acc.lastTweetId case None => None;
      if last != Some(t.id) {
        sent' := sent' + [Notice(uid, name, t.id, Message(name, t))];
        data' := WithAccounts(data', uid, Put(accounts, name, Account(Some(t.id))));
      }
      assert Cycle(data', sent') == Visit(before, name, t, uid);
      VisitAllStep(Cycle(data, sent), name, t, watchers, j);
      j := j + 1;
    }
    assert watchers[..j] == watchers;
  }

  /**
   * One pass of the tracker over the loaded table: for each watched
   * account in watch-map order, fetch it once; on success, visit its
   * watchers in order. Returns the table as the pass leaves it and the
   * notices it sends.
   */
  method TrackerPass(data: Data, fetch: string -> Option<Tweet>) returns (result: Data, sent: seq<Notice>)
    requires WellFormed(data)
    ensures Cycle(result, sent) == Pass(data, fetch)
    ensures forall u, m :: Lookup(result, u, m) == if Lookup(data, u, m).Some? && fetch(m).Some? then Some(Account(Some(fetch(m).value.id))) else Lookup(data, u, m)
    ensures forall x :: x in sent <==>
      && fetch(x.account).Some?
      && Stale(data, x.chat, x.account, fetch(x.account).value.id)
      && x.tweetId == fetch(x.account).value.id
      && x.text == Message(x.account, fetch(x.account).value)
    ensures DistinctPairs(sent)
    ensures result == data <==> sent == []
    ensures SameShape(result, data) && WellFormed(result)
    ensures WithinCap(data) ==> WithinCap(result)
    ensures StatsOf(result) == StatsOf(data)
  {
    var wm := BuildWatchMap(data);
    result, sent := data, [];
    var i := 0;
    while i < |wm|
      invariant 0 <= i <= |wm|
      invariant Cycle(result, sent) == PassOver(Cycle(data, []), wm[..i], fetch)
    {
      var username := wm[i].0;
      var watchers := wm[i].1;
      PassOverStep(Cycle(data, []), wm, fetch, i);
      var info := fetch(username);
      if info.Some? {
        result, sent := NotifyWatchers(result, sent, username, info.value, watchers);
      }
      i := i + 1;
    }
    assert wm[..i] == wm;
    PassFacts(data, fetch, result, sent);
  }

  lemma PassOverStep(c: Cycle, wm: WatchMap, fetch: string -> Option<Tweet>, i: nat)
    requires i < |wm|
    ensures PassOver(c, wm[..i + 1], fetch) == Track(PassOver(c, wm[..i], fetch), wm[i].0, wm[i].1, fetch(wm[i].0))
  {
    assert wm[..i + 1][..i] == wm[..i];
  }

  lemma PassFacts(data: Data, fetch: string -> Option<Tweet>, result: Data, sent: seq<Notice>)
    requires WellFormed(data) && Cycle(result, sent) == Pass(data, fetch)
    ensures forall u, m :: Lookup(result, u, m) == if Lookup(data, u, m).Some? && fetch(m).Some? then Some(Account(Some(fetch(m).value.id))) else Lookup(data, u, m)
    ensures forall x :: x in sent <==>
      && fetch(x.account).Some?
      && Stale(data, x.chat, x.account, fetch(x.account).value.id)
      && x.tweetId == fetch(x.account).value.id
      && x.text == Message(x.account, fetch(x.account).value)
    ensures DistinctPairs(sent)
    ensures result == data <==> sent == []
    ensures SameShape(result, data) && WellFormed(result)
    ensures WithinCap(data) ==> WithinCap(result)
    ensures StatsOf(result) == StatsOf(data)
  {
    PassLookups(data, fetch);
    PassNotices(data, fetch);
    PassChangesIffNotifies(data, fetch);
    PassKeepsTable(data, fetch);
  }
}
