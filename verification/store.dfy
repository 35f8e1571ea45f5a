/**
 * The subscription table of the bot (the content of data.json) and the chat
 * handlers that change it: user id -> {"accounts": username -> {"last_tweet_id":
 * id or None}, "meta": {}}.
 *
 * Every handler loads the table, changes it and saves it on some paths only.
 * Each handler is modelled as a method from the loaded table to the table as
 * it is left on disk: on a path that does not save, that is the loaded table,
 * whatever the handler changed in memory.
 */
module Store {

  import opened Dicts
  import opened Text

  /** Most accounts one user may watch. */
  const MaxAccounts := 5

  /** A Telegram chat id; data.json keys are its decimal string. */
  type UserId = int

  /** `{"last_tweet_id": ...}`: None until the tracker has stored an id. */
  datatype Account = Account(lastTweetId: Option<string>)

  /** `{"accounts": {...}, "meta": {...}}` */
  datatype User = User(accounts: Dict<string, Account>, meta: Dict<string, string>)

  type Data = Dict<UserId, User>

  /** What `ensure_user` stores for a user it has not seen. */
  const NewUser := User([], [])

  /** The accounts of `uid`, empty for an unknown user (`get("accounts", {})`). */
  function AccountsOf(data: Data, uid: UserId): Dict<string, Account> {
    GetOr(data, uid, NewUser).accounts
  }

  /** The entry of `name` in the accounts of `uid`, if there is one. */
  function Lookup(data: Data, uid: UserId, name: string): Option<Account> {
    Get(AccountsOf(data, uid), name)
  }

  /** The table is made of Python dicts: no user twice, no account twice per user. */
  ghost predicate WellFormed(data: Data) {
    && DistinctKeys(data)
    && forall uid :: DistinctKeys(AccountsOf(data, uid))
  }

  /** No user watches more than MaxAccounts accounts. */
  ghost predicate WithinCap(data: Data) {
    forall uid :: |AccountsOf(data, uid)| <= MaxAccounts
  }

  /** In a well-formed table, the user stored at position `i` is what a lookup finds. */
  lemma UserAt(data: Data, i: nat)
    requires DistinctKeys(data) && i < |data|
    ensures Get(data, data[i].0) == Some(data[i].1)
    ensures AccountsOf(data, data[i].0) == data[i].1.accounts
  {
    GetAt(data, i);
  }

  /**
   * `ensure_user`: a user that is absent gets an empty entry at the end of
   * the table; a present user's entry and every other entry are untouched.
   */
  function EnsureUser(data: Data, uid: UserId): (r: Data)
    ensures uid in Keys(r)
    ensures uid in Keys(data) ==> r == data
    ensures Keys(r) == if uid in Keys(data) then Keys(data) else Keys(data) + [uid]
    ensures forall v :: Get(r, v) == if v == uid && uid !in Keys(data) then Some(NewUser) else Get(data, v)
    ensures forall v :: AccountsOf(r, v) == AccountsOf(data, v)
    ensures WellFormed(data) ==> WellFormed(r)
    ensures WithinCap(data) ==> WithinCap(r)
  {
    if uid !in Keys(data) then Put(data, uid, NewUser) else data
  }

  /** Calling `ensure_user` a second time changes nothing. */
  lemma EnsureUserIdempotent(data: Data, uid: UserId)
    ensures EnsureUser(EnsureUser(data, uid), uid) == EnsureUser(data, uid)
  {
  }

  /**
   * The username `handle_text` takes from a message: the text stripped of
   * whitespace, every `@` removed, stripped again.
   */
  function UsernameOf(text: string): (name: string)
    ensures exists a :: TrimmedAt(RemoveAll(Strip(text, Whitespace), "@"), Whitespace, name, a)
    ensures '@' !in name
    ensures name == [] || (name[0] !in Whitespace && name[|name| - 1] !in Whitespace)
    ensures forall c :: c in name ==> c in text
  {
    Strip(RemoveAll(Strip(text, Whitespace), "@"), Whitespace)
  }

  /**
   * A username typed with or without its `@`, with whitespace around it,
   * is read back as the username.
   */
  lemma UsernameOfMention(pre: string, name: string, post: string)
    requires forall i :: 0 <= i < |pre| ==> pre[i] in Whitespace
    requires forall i :: 0 <= i < |post| ==> post[i] in Whitespace
    requires '@' !in name
    requires name == [] || (name[0] !in Whitespace && name[|name| - 1] !in Whitespace)
    ensures UsernameOf(pre + name + post) == name
    ensures UsernameOf(pre + "@" + name + post) == name
  {
    var mention := "@" + name;
    assert pre + "@" + name + post == pre + mention + post;
    UsernameOfPadded(pre, name, name, post);
    UsernameOfPadded(pre, mention, name, post);
  }

  /** The cleaning of `handle_text` on `typed` padded with whitespace. */
  lemma UsernameOfPadded(pre: string, typed: string, name: string, post: string)
    requires forall i :: 0 <= i < |pre| ==> pre[i] in Whitespace
    requires forall i :: 0 <= i < |post| ==> post[i] in Whitespace
    requires '@' !in name && (typed == name || typed == "@" + name)
    requires name == [] || (name[0] !in Whitespace && name[|name| - 1] !in Whitespace)
    ensures UsernameOf(pre + typed + post) == name
  {
    assert typed == [] || (typed[0] !in Whitespace && typed[|typed| - 1] !in Whitespace) by {
      assert '@' !in Whitespace;
    }
    StripPadded(pre, typed, post, Whitespace);
    MentionRemoved(typed, name);
    StripUntouched(name, Whitespace);
  }

  /** Removing every `@` from a name typed with or without its `@` leaves the name. */
  lemma MentionRemoved(typed: string, name: string)
    requires '@' !in name && (typed == name || typed == "@" + name)
    ensures RemoveAll(typed, "@") == name
  {
    CharAbsent(name, '@');
    if typed != name {
      RemoveAllLeading("@", name);
    }
  }

  /** Replaces the accounts of `uid`, keeping its meta (the in-place update of `user_obj`). */
  function WithAccounts(data: Data, uid: UserId, accounts: Dict<string, Account>): (r: Data)
    ensures Keys(r) == if uid in Keys(data) then Keys(data) else Keys(data) + [uid]
    ensures forall v :: AccountsOf(r, v) == if v == uid then accounts else AccountsOf(data, v)
    ensures forall v :: v != uid ==> Get(r, v) == Get(data, v)
    ensures GetOr(r, uid, NewUser).meta == GetOr(data, uid, NewUser).meta
    ensures DistinctKeys(data) ==> DistinctKeys(r)
  {
    Put(data, uid, GetOr(data, uid, NewUser).(accounts := accounts))
  }

  /** The replies of `handle_text` in its "adding" state. */
  datatype AddReply =
    | NoReply
    | LimitReached
    | InvalidUsername
    | AlreadyListed(name: string)
    | Added(name: string)

  /**
   * `handle_text`: when the user is in the "adding" state, the message names
   * an account to add. The add is refused, and nothing is saved, when the user
   * already has MaxAccounts accounts, when the name is empty or when it is
   * already listed; otherwise it is appended with no stored tweet id. The
   * "adding" state is over afterwards in every case.
   */
  method HandleText(data: Data, uid: UserId, adding: bool, text: string)
    returns (saved: Data, stillAdding: bool, reply: AddReply)
    ensures !stillAdding
    ensures !adding ==> reply == NoReply
    ensures reply == LimitReached <==> adding && |AccountsOf(data, uid)| >= MaxAccounts
    ensures reply == InvalidUsername <==>
      adding && |AccountsOf(data, uid)| < MaxAccounts && UsernameOf(text) == []
    ensures reply.AlreadyListed? <==>
      adding && |AccountsOf(data, uid)| < MaxAccounts && UsernameOf(text) != []
      && UsernameOf(text) in Keys(AccountsOf(data, uid))
    ensures reply.Added? <==>
      adding && |AccountsOf(data, uid)| < MaxAccounts && UsernameOf(text) != []
      && UsernameOf(text) !in Keys(AccountsOf(data, uid))
    ensures (reply.AlreadyListed? || reply.Added?) ==> reply.name == UsernameOf(text)
    ensures !reply.Added? ==> saved == data
    ensures reply.Added? ==>
      && AccountsOf(saved, uid) == AccountsOf(data, uid) + [(reply.name, Account(None))]
      && |AccountsOf(saved, uid)| <= MaxAccounts
      && Keys(saved) == (if uid in Keys(data) then Keys(data) else Keys(data) + [uid])
      && (forall v :: v != uid ==> Get(saved, v) == Get(data, v))
      && GetOr(saved, uid, NewUser).meta == GetOr(data, uid, NewUser).meta
    ensures WellFormed(data) ==> WellFormed(saved)
    ensures WithinCap(data) ==> WithinCap(saved)
  {
    saved, stillAdding, reply := data, adding, NoReply;
    var loaded := EnsureUser(data, uid);
    var accounts := AccountsOf(loaded, uid);
    if adding {
      if |accounts| >= MaxAccounts {
        // the user was already present, so what is saved is what was loaded
        saved, stillAdding, reply := loaded, false, LimitReached;
        return;
      }
      var name := UsernameOf(text);
      if name == [] {
        stillAdding, reply := false, InvalidUsername;
        return;
      }
      if name in Keys(accounts) {
        stillAdding, reply := false, AlreadyListed(name);
        return;
      }
      var updated := Put(accounts, name, Account(None));
      saved := WithAccounts(loaded, uid, updated);
      stillAdding, reply := false, Added(name);
      AppendAccount(data, uid, name);
    }
  }

  /** What the successful add of `name` for `uid` leaves in the table. */
  lemma AppendAccount(data: Data, uid: UserId, name: string)
    requires name !in Keys(AccountsOf(data, uid))
    ensures Put(AccountsOf(data, uid), name, Account(None)) == AccountsOf(data, uid) + [(name, Account(None))]
    ensures var saved := WithAccounts(EnsureUser(data, uid), uid, AccountsOf(data, uid) + [(name, Account(None))]);
      && AccountsOf(saved, uid) == AccountsOf(data, uid) + [(name, Account(None))]
      && Keys(saved) == (if uid in Keys(data) then Keys(data) else Keys(data) + [uid])
      && (forall v :: v != uid ==> Get(saved, v) == Get(data, v))
      && GetOr(saved, uid, NewUser).meta == GetOr(data, uid, NewUser).meta
      && (WellFormed(data) ==> WellFormed(saved))
      && (WithinCap(data) && |AccountsOf(data, uid)| < MaxAccounts ==> WithinCap(saved))
  {
    var accounts := AccountsOf(data, uid);
    var updated := accounts + [(name, Account(None))];
    AppendLookups(accounts, name, Account(None));
    var loaded := EnsureUser(data, uid);
    var saved := WithAccounts(loaded, uid, updated);
    assert GetOr(loaded, uid, NewUser).meta == GetOr(data, uid, NewUser).meta;
    if WellFormed(data) {
      forall v ensures DistinctKeys(AccountsOf(saved, v)) {
        if v != uid {
          assert AccountsOf(saved, v) == AccountsOf(data, v);
        }
      }
    }
    if WithinCap(data) && |accounts| < MaxAccounts {
      forall v ensures |AccountsOf(saved, v)| <= MaxAccounts {
        if v != uid {
          assert AccountsOf(saved, v) == AccountsOf(data, v);
        }
      }
    }
  }

  /** The replies of `callback_remove`. */
  datatype RemoveReply = Closed | Removed(name: string) | NotFound

  /** The callback data of the remove menu: one button per account, then "CLOSE". */
  function RemoveMenu(accounts: Dict<string, Account>): (buttons: seq<string>)
    ensures accounts == [] ==> buttons == []
    ensures accounts != [] ==> |buttons| == |accounts| + 1 && buttons[|accounts|] == "CLOSE"
    ensures forall i :: 0 <= i < |accounts| ==> buttons[i] == "rem_" + accounts[i].0
  {
    if accounts == [] then []
    else seq(|accounts|, i requires 0 <= i < |accounts| => "rem_" + accounts[i].0) + ["CLOSE"]
  }

  /**
   * The account a remove button names, as `callback_remove` computes it:
   * the callback data with every "rem_" removed, wherever it occurs.
   */
  function ButtonAccount(callback: string): (name: string)
    ensures |name| <= |callback|
    ensures Find(callback, "rem_").None? ==> name == callback
    ensures Find(callback, "rem_").Some? ==>
      var k := Find(callback, "rem_").value;
      name == callback[..k] + RemoveAll(callback[k + 4..], "rem_")
  {
    match Find(callback, "rem_")
    case None => RemoveAll(callback, "rem_")
    case Some(k) =>
      RemoveAllSplits(callback, "rem_", k);
      RemoveAll(callback, "rem_")
  }

  /** The button of an account whose name holds no "rem_" names it back. */
  lemma ButtonAccountOfPlainName(name: string)
    requires !Contains(name, "rem_")
    ensures ButtonAccount("rem_" + name) == name
  {
    RemoveAllLeading("rem_", name);
  }

  /**
   * The button of an account whose name starts with "rem_" (such as
   * "rem_bot") names another account: "rem_rem_bot" loses both prefixes.
   */
  lemma ButtonAccountMisreads(accounts: Dict<string, Account>, i: nat, rest: string)
    requires i < |accounts| && accounts[i].0 == "rem_" + rest && !Contains(rest, "rem_")
    ensures RemoveMenu(accounts)[i] == "rem_rem_" + rest
    ensures ButtonAccount(RemoveMenu(accounts)[i]) == rest
    ensures rest != accounts[i].0
  {
    assert "rem_rem_" + rest == "rem_" + ("rem_" + rest);
    RemoveAllLeading("rem_", "rem_" + rest);
    RemoveAllLeading("rem_", rest);
  }

  /** The account a remove button names: its callback data without the leading "rem_". */
  function ButtonTarget(callback: string): (name: string)
    ensures |callback| >= 4 && callback[..4] == "rem_" ==> callback == "rem_" + name
    ensures !(|callback| >= 4 && callback[..4] == "rem_") ==> name == callback
  {
    if |callback| >= 4 && callback[..4] == "rem_" then callback[4..] else callback
  }

  /** Every button of the remove menu but the last names the account it was made for. */
  lemma {:induction false} MenuRoundTrip(accounts: Dict<string, Account>, i: nat)
    requires i < |accounts|
    ensures ButtonTarget(RemoveMenu(accounts)[i]) == accounts[i].0
  {
    var button := RemoveMenu(accounts)[i];
    assert button == "rem_" + accounts[i].0;
    assert button[..4] == "rem_";
    assert button[4..] == accounts[i].0;
  }

  /**
   * `callback_remove`: "CLOSE" closes the menu and changes nothing; any other
   * button names an account, which is deleted if the user has it (and only
   * then is the table saved).
   */
  method RemoveFromCallback(data: Data, uid: UserId, callback: string)
    returns (saved: Data, reply: RemoveReply)
    ensures callback == "CLOSE" <==> reply == Closed
    ensures reply.Removed? <==>
      callback != "CLOSE" && ButtonAccount(callback) in Keys(AccountsOf(data, uid))
    ensures reply.Removed? ==> reply.name == ButtonAccount(callback)
    ensures !reply.Removed? ==> saved == data
    ensures reply.Removed? ==>
      var before := Keys(AccountsOf(data, uid));
      var i := IndexOf(AccountsOf(data, uid), reply.name).value;
      Keys(AccountsOf(saved, uid)) == before[..i] + before[i + 1..]
    ensures reply.Removed? ==>
      && Keys(saved) == Keys(data)
      && (forall v :: v != uid ==> Get(saved, v) == Get(data, v))
      && GetOr(saved, uid, NewUser).meta == GetOr(data, uid, NewUser).meta
      && |AccountsOf(saved, uid)| == |AccountsOf(data, uid)| - 1
    ensures reply.Removed? && WellFormed(data) ==>
      forall m :: m in Keys(AccountsOf(saved, uid)) <==> m in Keys(AccountsOf(data, uid)) && m != reply.name
    ensures reply.Removed? && WellFormed(data) ==>
      forall m :: Get(AccountsOf(saved, uid), m) == if m == reply.name then None else Get(AccountsOf(data, uid), m)
    ensures WellFormed(data) ==> WellFormed(saved)
    ensures WithinCap(data) ==> WithinCap(saved)
  {
    saved := data;
    var loaded := EnsureUser(data, uid);
    var accounts := AccountsOf(loaded, uid);
    assert accounts == AccountsOf(data, uid);
    if callback == "CLOSE" {
      reply := Closed;
      return;
    }
    var name := ButtonAccount(callback);
    if name in Keys(accounts) {
      // the user has an account, so it was already present
      saved := Removal(data, uid, name);
      RemovalShape(data, uid, name);
      RemovalLookups(data, uid, name);
      RemovalWellFormed(data, uid, name);
      RemovalWithinCap(data, uid, name);
      reply := Removed(name);
    } else {
      reply := NotFound;
    }
  }

  /** The table after account `name` is dropped from the list of `uid`. */
  function Removal(data: Data, uid: UserId, name: string): Data {
    WithAccounts(EnsureUser(data, uid), uid, Pop(AccountsOf(data, uid), name))
  }

  lemma RemovalShape(data: Data, uid: UserId, name: string)
    requires name in Keys(AccountsOf(data, uid))
    ensures var before := Keys(AccountsOf(data, uid));
      var i := IndexOf(AccountsOf(data, uid), name).value;
      Keys(AccountsOf(Removal(data, uid, name), uid)) == before[..i] + before[i + 1..]
    ensures Keys(Removal(data, uid, name)) == Keys(data)
    ensures forall v :: v != uid ==> Get(Removal(data, uid, name), v) == Get(data, v)
    ensures GetOr(Removal(data, uid, name), uid, NewUser).meta == GetOr(data, uid, NewUser).meta
    ensures |AccountsOf(Removal(data, uid, name), uid)| == |AccountsOf(data, uid)| - 1
  {
    assert AccountsOf(Removal(data, uid, name), uid) == Pop(AccountsOf(data, uid), name);
  }

  lemma RemovalLookups(data: Data, uid: UserId, name: string)
    requires name in Keys(AccountsOf(data, uid))
    ensures WellFormed(data) ==>
      forall m :: m in Keys(AccountsOf(Removal(data, uid, name), uid)) <==> m in Keys(AccountsOf(data, uid)) && m != name
    ensures WellFormed(data) ==>
      forall m :: Get(AccountsOf(Removal(data, uid, name), uid), m) == if m == name then None else Get(AccountsOf(data, uid), m)
  {
    assert AccountsOf(Removal(data, uid, name), uid) == Pop(AccountsOf(data, uid), name);
  }

  /** Dropping an account keeps the table well formed. */
  lemma RemovalWellFormed(data: Data, uid: UserId, name: string)
    ensures WellFormed(data) ==> WellFormed(Removal(data, uid, name))
  {
    var r := Removal(data, uid, name);
    RemovalAccounts(data, uid, name);
    if WellFormed(data) {
      assert DistinctKeys(EnsureUser(data, uid));
      forall v ensures DistinctKeys(AccountsOf(r, v)) {
        assert DistinctKeys(AccountsOf(data, v));
      }
    }
  }

  /** Dropping an account keeps every user within the cap. */
  lemma RemovalWithinCap(data: Data, uid: UserId, name: string)
    ensures WithinCap(data) ==> WithinCap(Removal(data, uid, name))
  {
    var r := Removal(data, uid, name);
    RemovalAccounts(data, uid, name);
    if WithinCap(data) {
      forall v ensures |AccountsOf(r, v)| <= MaxAccounts {
        assert |AccountsOf(data, v)| <= MaxAccounts;
      }
    }
  }

  lemma RemovalAccounts(data: Data, uid: UserId, name: string)
    ensures forall v :: AccountsOf(Removal(data, uid, name), v) == (if v == uid then Pop(AccountsOf(data, uid), name) else AccountsOf(data, v))
  {
  }

  /**
   * Pressing the button of an account "rem_" + x when x is listed too
   * deletes x, and the account the button was made for stays.
   */
  method RemoveWrongAccount(data: Data, uid: UserId, rest: string)
    returns (saved: Data, reply: RemoveReply)
    requires WellFormed(data) && !Contains(rest, "rem_")
    requires "rem_" + rest in Keys(AccountsOf(data, uid)) && rest in Keys(AccountsOf(data, uid))
    ensures reply == Removed(rest)
    ensures Lookup(saved, uid, rest) == None
    ensures Lookup(saved, uid, "rem_" + rest) == Lookup(data, uid, "rem_" + rest) != None
  {
    var accounts := AccountsOf(data, uid);
    var i := IndexOf(accounts, "rem_" + rest).value;
    ButtonAccountMisreads(accounts, i, rest);
    var button := RemoveMenu(accounts)[i];
    assert button != "CLOSE" by { assert button[0] == 'r'; }
    saved, reply := RemoveFromCallback(data, uid, button);
  }

  /** The `/add` command: registers the user, then asks for a name unless the user is full. */
  method AddCommand(data: Data, uid: UserId, adding: bool)
    returns (saved: Data, nowAdding: bool, prompted: bool)
    ensures saved == EnsureUser(data, uid)
    ensures prompted <==> |AccountsOf(data, uid)| < MaxAccounts
    ensures nowAdding == (adding || prompted)
    ensures uid in Keys(saved)
    ensures forall v :: v != uid ==> Get(saved, v) == Get(data, v)
    ensures AccountsOf(saved, uid) == AccountsOf(data, uid)
    ensures WellFormed(data) ==> WellFormed(saved)
  {
    saved := EnsureUser(data, uid);
    nowAdding := adding;
    prompted := |AccountsOf(saved, uid)| < MaxAccounts;
    if prompted {
      nowAdding := true;
    }
  }

  /** Total number of watched accounts over all users, as `stats` sums it. */
  function TotalAccounts(data: Data): nat {
    if data == [] then 0
    else TotalAccounts(data[..|data| - 1]) + |data[|data| - 1].1.accounts|
  }

  /** What `/stats` reports. */
  datatype Stats = Stats(totalUsers: nat, totalAccounts: nat)

  /**
   * `/stats`: one count per user; the account total counts every user's
   * accounts, so it bounds each of them, and with the cap kept it is at
   * most MaxAccounts per user.
   */
  function StatsOf(data: Data): (s: Stats)
    ensures s.totalUsers == |Keys(data)|
    ensures WellFormed(data) ==> forall uid :: |AccountsOf(data, uid)| <= s.totalAccounts
    ensures WellFormed(data) && WithinCap(data) ==> s.totalAccounts <= MaxAccounts * s.totalUsers
  {
    TotalAccountsBounded(data);
    TotalCountsEveryUser(data);
    Stats(|data|, TotalAccounts(data))
  }

  /** With the cap kept, the total is at most MaxAccounts per user. */
  lemma {:induction false} TotalAccountsBounded(data: Data)
    ensures WellFormed(data) && WithinCap(data) ==> TotalAccounts(data) <= MaxAccounts * |data|
  {
    if data != [] && WellFormed(data) && WithinCap(data) {
      var init := data[..|data| - 1];
      DropLastUser(data);
      assert WithinCap(init) by {
        forall uid ensures |AccountsOf(init, uid)| <= MaxAccounts {
          assert AccountsOf(init, uid) == [] || AccountsOf(init, uid) == AccountsOf(data, uid);
        }
      }
      TotalAccountsBounded(init);
    }
  }

  /** Every user's accounts are part of the total. */
  lemma {:induction false} TotalCountsEveryUser(data: Data)
    ensures WellFormed(data) ==> forall uid :: |AccountsOf(data, uid)| <= TotalAccounts(data)
  {
    if data != [] && WellFormed(data) {
      var init := data[..|data| - 1];
      DropLastUser(data);
      TotalCountsEveryUser(init);
      forall uid ensures |AccountsOf(data, uid)| <= TotalAccounts(data) {
        if uid != data[|data| - 1].0 {
          assert AccountsOf(init, uid) == AccountsOf(data, uid);
        }
      }
    }
  }

  /**
   * The table without its last entry is still well formed, and holds the
   * same accounts for every user except the last one, who is absent.
   */
  lemma DropLastUser(data: Data)
    requires WellFormed(data) && data != []
    ensures WellFormed(data[..|data| - 1])
    ensures AccountsOf(data, data[|data| - 1].0) == data[|data| - 1].1.accounts
    ensures forall uid :: AccountsOf(data[..|data| - 1], uid) == (if uid == data[|data| - 1].0 then [] else AccountsOf(data, uid))
  {
    var init := data[..|data| - 1];
    forall uid ensures Get(init, uid) == if uid == data[|data| - 1].0 then None else Get(data, uid) {
      DropLast(data, uid);
    }
    DropLast(data, data[|data| - 1].0);
    forall uid ensures DistinctKeys(AccountsOf(init, uid)) {
      assert AccountsOf(init, uid) == [] || AccountsOf(init, uid) == AccountsOf(data, uid);
    }
  }

  /**
   * Replacing the accounts of one user changes the total by the difference
   * in that user's count.
   */
  lemma {:induction false} TotalAfterWithAccounts(data: Data, uid: UserId, accounts: Dict<string, Account>)
    requires DistinctKeys(data)
    ensures TotalAccounts(WithAccounts(data, uid, accounts))
      == TotalAccounts(data) - |AccountsOf(data, uid)| + |accounts|
  {
    var user := GetOr(data, uid, NewUser).(accounts := accounts);
    match IndexOf(data, uid)
    case None =>
      assert WithAccounts(data, uid, accounts) == data + [(uid, user)];
      assert (data + [(uid, user)])[..|data|] == data;
    case Some(i) =>
      UserAt(data, i);
      TotalAfterUpdate(data, i, user);
  }

  lemma {:induction false} TotalAfterUpdate(data: Data, i: nat, user: User)
    requires i < |data|
    ensures TotalAccounts(data[i := (data[i].0, user)])
      == TotalAccounts(data) - |data[i].1.accounts| + |user.accounts|
    decreases |data|
  {
    var r := data[i := (data[i].0, user)];
    var n := |data| - 1;
    if i < n {
      assert r[..n] == data[..n][i := (data[i].0, user)];
      TotalAfterUpdate(data[..n], i, user);
    } else {
      assert r[..n] == data[..n];
    }
  }
}
