# x-notify-bot, modelled in Dafny

A Telegram bot that lets each chat watch up to five X (Twitter) accounts.
The subscription table (`data.json`) maps every user id to its watched
accounts, and each account to the id of the last tweet the user was told
about (`last_tweet_id`, None until the tracker has seen a tweet). Chat
handlers add accounts (`/add`, then a username), remove them (an inline
menu of `rem_<name>` buttons plus a `CLOSE` button) and count them
(`/stats`). A background tracker polls: each pass indexes the table by
account, fetches each account's latest tweet once, notifies every watcher
whose stored id differs from the fetched one, and stores the fetched id.

The model has five modules:

- `Dicts`: Python's insertion-ordered `dict` as an association list
  (`get`, `d[k] = v`, `pop`, iteration order), with `DistinctKeys` as the
  dict invariant.
- `Text`: the `str` operations the bot uses (`in`, `split(sep)[-1]`,
  `split(c)[0]`, `strip`, `replace(p, "")`), with Python's own
  left-to-right, non-overlapping scans. `Find`, the leftmost search for a
  substring, models `in` and is the scan behind `split` and `replace`.
- `Store`: the table and its handlers: `ensure_user`, the adding branch of
  `handle_text`, `/add`, the remove menu and `callback_remove`, and `/stats`.
  Each handler is a method from the table as loaded to the table as it is
  left on disk. On a path that does not call `save_data`, that is the
  loaded table, whatever `ensure_user` inserted in memory.
- `Scrape`: the tweet id taken from a `/status/` href, the permalink, and
  the notification text.
- `Tracker`: one pass of `tracker_loop`. `BuildWatchMap` and
  `TrackerPass` (with its inner loop `NotifyWatchers`) are loops proved
  equal to the functions `WatchMapOf` and `Pass`. The lemmas state what a
  pass promises:
  - the watch map is exact and its total matches `/stats`;
  - a notice goes out exactly on a differing cursor, at most once per chat
    and account;
  - cursors converge, and a second pass is quiet;
  - a failed fetch changes nothing;
  - users, accounts, meta and the cap are kept.

  The fetch is a parameter `fetch: string -> Option<Tweet>`. None stands
  for every failure: a bad status, no `/status/` link, an exception. A
  notice is recorded when the send is attempted; whether it is delivered
  does not affect the table.

Code and comment disagree on new accounts. The comment at bot.py:211 says
an account added with `last_tweet_id = None` is one the tracker "will fetch
but not notify immediately". The test at bot.py:139 compares the stored id with the fetched
one, and None differs from every id, so the first successful fetch after an
add does notify. The model follows the code; `Tracker.FirstFetchNotifies`
states it.

The tracker writes the table after every cursor update. `TrackerPass`
returns the in-memory table at the end of the pass.
`Tracker.PassChangesIffNotifies` shows that this table differs from the
loaded one exactly when some notice was sent. So it is also what the pass
leaves on disk.

## Model

| member | source | states |
|---|---|---|
| `Dicts.Get` | bot.py:135-136 | a lookup finds a value exactly for a present key, and the value is one stored under that key |
| `Dicts.Put` | bot.py:150 | `d[k] = v` changes the lookup of `k` only; an existing key keeps its position, a new one goes last; no key is ever held twice |
| `Dicts.Pop` | bot.py:248 | `pop` removes exactly the entry of a present key (one entry fewer), the remaining keys keep their order, and every other lookup is kept; an absent key leaves the dict exactly as it is |
| `Text.Find` | bot.py:80 | `"/status/" in href` holds exactly when the search gives a position; that position is the leftmost occurrence |
| `Text.LastField` | bot.py:81 | `split(sep)[-1]` is a suffix of the string that holds no separator; it is the whole string when there is no separator, and otherwise a separator occurs right before it |
| `Text.LastFieldAfterLast` | bot.py:81 | when no two separators in the string overlap, `split(sep)[-1]` is exactly the text after the last separator (`Scrape.SplitTakesWrongField` shows the premise is needed) |
| `Text.BeforeFirst` | bot.py:81 | `split("?")[0]` is the prefix up to the first `?`, which it does not contain |
| `Text.Strip` | bot.py:189 | `strip(cs)` leaves an infix that neither starts nor ends with a character of `cs`, and everything cut off on either side is in `cs` |
| `Text.RemoveAll` | bot.py:200 | `replace(p, "")` never lengthens the string and is the identity when `p` does not occur; for a one-character `p` the result is the string's multiset of characters with every copy of that character taken out |
| `Text.RemoveAllSplits` | bot.py:246 | `replace(p, "")` keeps the text before the leftmost occurrence of `p`, drops that occurrence and carries on after it, left to right and without overlaps |
| `Store.EnsureUser` | bot.py:49-53 | an absent user gets an empty entry at the end; a present user and every other user are untouched; well-formedness and the cap are kept |
| `Store.EnsureUserIdempotent` | bot.py:49-53 | calling `ensure_user` twice is the same as calling it once |
| `Store.UsernameOf` | bot.py:189-200 | the name taken from a message is the stripped infix of the message stripped with its `@`s removed: it has no `@`, no surrounding whitespace, and only characters of the message |
| `Store.UsernameOfMention` | bot.py:189-200 | a name typed with surrounding whitespace, with or without a leading `@`, is read back as that name |
| `Store.WithAccounts` | bot.py:212 | replacing one user's accounts changes no other user and keeps that user's meta |
| `Store.HandleText` | bot.py:187-216 | in the adding state, the add is refused with the table unchanged when the user has 5 accounts, when the name is empty or when it is already listed (each reply exactly in its case); otherwise the name is appended with no stored id, the count stays at most 5 and no other user or entry changes; the adding state ends in every case |
| `Store.AddCommand` | bot.py:174-185 | `/add` saves the table as `ensure_user` leaves it: the user is registered, no accounts and no other user change; it enters the adding state exactly when the user has fewer than 5 accounts |
| `Store.RemoveMenu` | bot.py:222-229 | the menu has one `rem_<name>` button per account in order, then `CLOSE`, and is empty for a user with no accounts |
| `Store.ButtonAccount` | bot.py:246 | the as-written parse of a button is the button itself when it holds no `rem_`; otherwise it keeps the text before the first `rem_` and removes every `rem_` after it |
| `Store.ButtonAccountOfPlainName` | bot.py:246 | for a name that holds no `rem_`, the as-written parse gives back the name |
| `Store.ButtonAccountMisreads` | bot.py:228-246 | for an account named `rem_` + x, the as-written parse of its button `rem_rem_` + x gives x, another account |
| `Store.RemoveWrongAccount` | bot.py:228-249 | when a user has both `rem_` + x and x, the button of `rem_` + x deletes x and leaves `rem_` + x in place |
| `Store.ButtonTarget` | bot.py:246 | the corrected parse drops exactly one leading `rem_` |
| `Store.MenuRoundTrip` | bot.py:228-247 | every account button of the menu parses back to its own account |
| `Store.RemoveFromCallback` | bot.py:232-252 | `CLOSE` changes nothing; otherwise the account named by the as-written parse is deleted exactly when the user has it, the remaining accounts keep their order and lookups, and every other user and the meta are as they were; otherwise nothing is saved |
| `Store.StatsOf` | bot.py:267-270 | the user count is the number of users; the account total is at least any one user's count and, in a table that keeps the cap, at most 5 per user |
| `Store.TotalAccountsBounded` | bot.py:269-270 | in a table that keeps the cap, the account total is at most 5 per user |
| `Store.TotalCountsEveryUser` | bot.py:270 | the account total counts every user's accounts, so it is at least any one user's count |
| `Store.TotalAfterWithAccounts` | bot.py:270 | replacing one user's accounts moves the account total by the change in that user's count |
| `Scrape.IdCut` | bot.py:81 | `split("?")[0].strip("/")` is the `/`-strip of the text before the first `?`: an infix of that text, everything around it is `/`, it has no `?` and neither starts nor ends with `/` |
| `Scrape.TweetIdFromHref` | bot.py:80-83 | an href gives an id exactly when it holds `/status/`; the id has no `?`, neither starts nor ends with `/`, holds no `/status/`, and occurs in the href |
| `Scrape.Message` | bot.py:142-144 | the notification text ends with the tweet's permalink |
| `Scrape.FindLast` | bot.py:81 | the rightmost occurrence of the marker, or None exactly when there is none |
| `Scrape.HrefGivesId` | bot.py:79-81 | an href `prefix/status/<id>`, with trailing slashes and a query allowed, and no other `/status/`, gives `<id>` both as written and corrected |
| `Scrape.TweetIdAfterLast` | bot.py:81 | the corrected extraction gives an id exactly when the href holds `/status/`; the id has no `?`, neither starts nor ends with `/`, holds no `/status/`, and occurs in the href |
| `Scrape.AfterLastGivesId` | bot.py:79-81 | the corrected extraction gives `<id>` for `prefix/status/<id>` followed by slashes and a query free of `/status/`, whatever `/status/` the prefix holds (except for an id `status` followed by `/`, which reads as one more marker) |
| `Scrape.AfterLastRecoversId` | bot.py:81 | whatever precedes it, `/status/` followed by an id free of `/` and `?` gives back that id |
| `Scrape.MessageNamesTweet` | bot.py:143-144 | through the corrected extraction, both the permalink and the whole notification text give back the id of the tweet they announce, for an id free of `/` and `?` |
| `Scrape.SplitTakesWrongField` | bot.py:81 | as written, the href `/status/status/<id>` of an account named `status` gives `status/<id>` |
| `Scrape.AfterLastSkipsAccount` | bot.py:81 | the corrected extraction gives `<id>` for that same href |
| `Tracker.AddWatch` | bot.py:114 | `setdefault(name, []).append(uid)` appends `uid` to the list of `name` only, adding the key if needed |
| `Tracker.WatchMapLists` | bot.py:109-114 | the watch map lists under each name the users watching it in table order, and has a key exactly for each watched name |
| `Tracker.WatchersExact` | bot.py:109-114 | a user is listed under a name exactly when it watches that name, and at most once |
| `Tracker.WatchMapTotal` | bot.py:109-114 | the watch map holds as many (name, watcher) pairs as `/stats` counts accounts |
| `Tracker.WatchMapExact` | bot.py:109-114 | in a well-formed table, `u` is listed under `n` exactly when `u` watches `n`, and no list repeats a user |
| `Tracker.BuildWatchMap` | bot.py:109-114 | the nested loops build exactly that watch map: exact, without repeats, no empty list, total equal to the account count |
| `Tracker.VisitEffect` | bot.py:132-150 | one visit stores the fetched id for that watcher and account, and nothing else; it sends one notice exactly when the stored id differed |
| `Tracker.VisitKeepsShape` | bot.py:148-150 | overwriting a watched cursor keeps users, accounts, their order, meta and the account total |
| `Tracker.VisitCurrent` | bot.py:139 | a watcher that already holds the fetched id is left alone and sent nothing |
| `Tracker.VisitAllLookups` | bot.py:130-150 | after the inner loop, every listed watcher holds the fetched id for that account; every other entry is as before |
| `Tracker.VisitAllSent` | bot.py:130-146 | over distinct watchers, the inner loop sends a notice to a watcher exactly when its stored id differed, with the fetched id and its message |
| `Tracker.VisitAllSentOnce` | bot.py:130-146 | the inner loop never sends a chat a second notice about the same account |
| `Tracker.NotifyWatchers` | bot.py:130-150 | the inner loop computes exactly the watcher-by-watcher visits |
| `Tracker.PassOverLookups` | bot.py:121-150 | after the outer loop, each listed watcher of an account that fetched holds the fetched id; all other entries are untouched |
| `Tracker.PassOverSent` | bot.py:121-146 | the outer loop notifies exactly the listed watchers, of accounts that fetched, whose stored id differs |
| `Tracker.PassOverKeepsShape` | bot.py:121-150 | the outer loop keeps users, accounts, order, meta and the account total |
| `Tracker.PassOverCurrent` | bot.py:121-150 | when every listed watcher already holds its fetched id, the outer loop changes nothing |
| `Tracker.PassLookups` | bot.py:108-151 | after a pass, each watcher of an account that fetched holds the fetched id, and nothing else changed: cursors converge |
| `Tracker.PassNotices` | bot.py:121-146 | a pass notifies a chat about an account exactly when that account fetched and the chat watches it with another stored id; the notice carries the fetched id and its message, and no chat gets two notices about one account |
| `Tracker.PassKeepsTable` | bot.py:108-151 | a pass keeps the users, the accounts and their order, the meta, the cap and what `/stats` reports |
| `Tracker.FailedFetchChangesNothing` | bot.py:122-125 | a failed fetch leaves every cursor of that account alone and sends nothing about it |
| `Tracker.FirstFetchNotifies` | bot.py:139 | an account with no stored id, as an add leaves it, is announced on the first successful fetch |
| `Tracker.PassCurrent` | bot.py:139 | when every watcher already holds the fetched id, a pass changes nothing and sends nothing |
| `Tracker.PassIdempotent` | bot.py:108-151 | a second pass with the same fetch results changes nothing and sends nothing |
| `Tracker.PassChangesIffNotifies` | bot.py:139-150 | a pass leaves the table as loaded exactly when it sends no notice |
| `Tracker.TrackerPass` | bot.py:107-151 | the pass computes `Pass`: cursors converge, notices go out exactly on a differing cursor and at most once per chat and account, the table changes exactly when something is sent, and shape, cap and stats are kept |

## Left out

- HTTP fetching, the HTML search for the first `/status/` anchor and the
  tweet text taken from it (bot.py:56-94): these are network I/O and an
  HTML library. They become the `fetch` parameter.
- Loading and saving `data.json`: file I/O. The fallback to an empty
  table on a missing or corrupt file is left out too. The table is a value.
- Telegram: replies, keyboards, deleting or editing the menu message, and
  `send_message` with its swallowed failures. A send is a `Notice` record.
- `asyncio`: the endless loop, the sleeps, the exception handler around a
  pass, and startup and signal handling. Also the race between a handler
  and the tracker, which each overwrite the whole file.
- Logging.
- User ids are strings in the file (`str(user.id)`). The tracker turns
  them back with `int(user_id)`. The model uses the integer id directly.
- A user entry without an `"accounts"` key, which the `get(..., {})` and
  `setdefault` calls allow for, is not modelled. Every user has an
  accounts dict.
- The tracker's `"id" not in info` test is not modelled: a successful fetch
  always carries an id.
- `start` and `list_accounts` are not modelled. They only register the user
  or print the account names.
- Tracker.TrackerPass: the order of the notices (watch-map order, then watcher
  order) is fixed by its equality with `Pass`. The listed lemmas do not
  restate that order.
- Scrape.Message: its contract states only that the text ends with the
  permalink, which is what `MessageNamesTweet` needs. The headline and the
  fallback to the link for an empty tweet text are in its definition only.

## Findings

| source | as written | input that shows it | evidently intended | confidence | as-written member | corrected member |
|---|---|---|---|---|---|---|
| bot.py:246 | the account is the callback data with every `rem_` removed | an account named `rem_bot`: its button `rem_rem_bot` parses to `bot`, so that account cannot be removed, and when the user also has `bot` the wrong one is deleted | drop only the `rem_` prefix the menu added at bot.py:228 | not executed; high | `Store.RemoveWrongAccount` | `Store.MenuRoundTrip` |
| bot.py:81 | the id is the last field of a left-to-right, non-overlapping `split("/status/")` | the href `/status/status/123` of an account named `status` gives `status/123` | the text after the last `/status/`, here `123` | not executed; medium | `Scrape.SplitTakesWrongField` | `Scrape.AfterLastSkipsAccount` |
