/**
 * The pure string work around a tweet: taking the tweet id out of a
 * `/status/` link found on a profile page, and writing the permalink and
 * the notification text. Fetching the page and finding the link in its
 * HTML are not part of this model (the tracker receives their result).
 */
module Scrape {

  import opened Dicts
  import opened Text

  const StatusMarker := "/status/"

  /** What a successful fetch reports: `{"id": ..., "text": ...}`. */
  datatype Tweet = Tweet(id: string, text: string)

  /**
   * The id in an href such as `/user/status/123?s=20`: the last field of
   * `split("/status/")`, cut at the first `?`, with `/` stripped from both
   * ends. An href without `/status/` gives no id.
   */
  function TweetIdFromHref(href: string): (r: Option<string>)
    ensures r.Some? <==> Contains(href, StatusMarker)
    ensures r.Some? ==> '?' !in r.value
    ensures r.Some? ==> r.value == [] || (r.value[0] != '/' && r.value[|r.value| - 1] != '/')
    ensures r.Some? ==> !Contains(r.value, StatusMarker)
    ensures r.Some? ==> Contains(href, r.value)
  {
    if Find(href, StatusMarker).Some? then Some(IdInLastField(href)) else None
  }

  /** The id read from the last field of the split, which holds no marker. */
  function IdInLastField(href: string): (id: string)
    ensures '?' !in id
    ensures id == [] || (id[0] != '/' && id[|id| - 1] != '/')
    ensures !Contains(id, StatusMarker)
    ensures Contains(href, id)
  {
    LastFieldIdShape(href);
    IdCut(LastField(href, StatusMarker))
  }

  lemma LastFieldIdShape(href: string)
    ensures !Contains(IdCut(LastField(href, StatusMarker)), StatusMarker)
    ensures Contains(href, IdCut(LastField(href, StatusMarker)))
  {
    var field := LastField(href, StatusMarker);
    IdShape(href, field, IdCut(field));
  }

  /**
   * `.split("?")[0].strip("/")`: the field after the marker, cut at its
   * first `?` and stripped of `/`; what is left is an infix of the field.
   */
  function IdCut(field: string): (id: string)
    ensures exists a :: TrimmedAt(BeforeFirst(field, '?'), {'/'}, id, a)
    ensures '?' !in id
    ensures id == [] || (id[0] != '/' && id[|id| - 1] != '/')
    ensures Contains(field, id)
  {
    var query := BeforeFirst(field, '?');
    var id := Strip(query, {'/'});
    CutInfix(field, query, id);
    id
  }

  lemma CutInfix(field: string, query: string, id: string)
    requires |query| <= |field| && query == field[..|query|]
    requires exists a :: TrimmedAt(query, {'/'}, id, a)
    ensures Contains(field, id)
  {
    var a :| TrimmedAt(query, {'/'}, id, a);
    var x, y := field[a..a + |id|], query[a..a + |id|];
    forall i | 0 <= i < |id| ensures x[i] == y[i] {
      assert x[i] == field[a + i] && y[i] == query[a + i];
    }
    assert x == y;
    assert OccursAt(field, id, a);
  }

  lemma IdShape(href: string, field: string, id: string)
    requires |field| <= |href| && field == href[|href| - |field|..] && !Contains(field, StatusMarker)
    requires Contains(field, id)
    ensures !Contains(id, StatusMarker)
    ensures Contains(href, id)
  {
    var a :| OccursAt(field, id, a);
    var start := |href| - |field| + a;
    assert field[a..a + |id|] == href[start..start + |id|];
    assert OccursAt(href, id, start);
    InfixAvoids(field, StatusMarker, a, a + |id|);
  }

  /** The permalink of tweet `id` of `username`. */
  function Link(username: string, id: string): string {
    "https://x.com/" + username + StatusMarker + id
  }

  /**
   * The notification: a headline naming the account, the tweet text (the
   * link when the text is empty), and the link.
   */
  function Message(username: string, t: Tweet): (msg: string)
    ensures |msg| >= |Link(username, t.id)| && msg[|msg| - |Link(username, t.id)|..] == Link(username, t.id)
  {
    var link := Link(username, t.id);
    var msg := "\U{1F7E6} New Tweet by @" + username + ":\n\n" + (if t.text == "" then link else t.text) + "\n\n" + link;
    assert msg == ("\U{1F7E6} New Tweet by @" + username + ":\n\n" + (if t.text == "" then link else t.text) + "\n\n") + link;
    msg
  }

  /** Position of the rightmost occurrence of `p` in `s`. */
  function FindLast(s: string, p: string): (r: Option<nat>)
    ensures r.Some? ==> OccursAt(s, p, r.value)
    ensures r.Some? ==> forall j :: r.value < j ==> !OccursAt(s, p, j)
    ensures r.None? <==> !Contains(s, p)
    decreases |s|
  {
    if |s| < |p| then None
    else if s[|s| - |p|..] == p then Some(|s| - |p|)
    else
      var r := FindLast(s[..|s| - 1], p);
      forall j | OccursAt(s, p, j) ensures j < |s| - |p| && OccursAt(s[..|s| - 1], p, j) {
        assert s[..|s| - 1][j..j + |p|] == s[j..j + |p|];
      }
      if r.Some? then
        assert OccursAt(s, p, r.value) by {
          assert s[..|s| - 1][r.value..r.value + |p|] == s[r.value..r.value + |p|];
        }
        r
      else
        r
  }

  /** An occurrence with none after it is what `FindLast` finds. */
  lemma FindLastAt(s: string, p: string, k: nat)
    requires OccursAt(s, p, k)
    requires forall j :: k < j ==> !OccursAt(s, p, j)
    ensures FindLast(s, p) == Some(k)
  {
    assert OccursAt(s, p, FindLast(s, p).value);
  }

  /**
   * The id taken after the LAST `/status/` of the href (a right split), cut
   * at the first `?` and stripped of `/`.
   */
  function TweetIdAfterLast(href: string): (r: Option<string>)
    ensures r.Some? <==> Contains(href, StatusMarker)
    ensures r.Some? ==> '?' !in r.value
    ensures r.Some? ==> r.value == [] || (r.value[0] != '/' && r.value[|r.value| - 1] != '/')
    ensures r.Some? ==> !Contains(r.value, StatusMarker)
    ensures r.Some? ==> Contains(href, r.value)
  {
    match FindLast(href, StatusMarker)
    case None => None
    case Some(k) => Some(IdAfter(href, k))
  }

  /** The id read from the field after the `/status/` at `k`, the last one. */
  function IdAfter(href: string, k: nat): (id: string)
    requires OccursAt(href, StatusMarker, k)
    requires forall j :: k < j ==> !OccursAt(href, StatusMarker, j)
    ensures '?' !in id
    ensures id == [] || (id[0] != '/' && id[|id| - 1] != '/')
    ensures !Contains(id, StatusMarker)
    ensures Contains(href, id)
  {
    AfterMarkerIdShape(href, k);
    IdCut(href[k + 8..])
  }

  lemma AfterMarkerIdShape(href: string, k: nat)
    requires OccursAt(href, StatusMarker, k)
    requires forall j :: k < j ==> !OccursAt(href, StatusMarker, j)
    ensures !Contains(IdCut(href[k + 8..]), StatusMarker)
    ensures Contains(href, IdCut(href[k + 8..]))
  {
    var field := href[k + 8..];
    LastMarkerField(href, k);
    IdShape(href, field, IdCut(field));
  }

  /** Nothing after the last `/status/` holds another one. */
  lemma LastMarkerField(href: string, k: nat)
    requires OccursAt(href, StatusMarker, k)
    requires forall j :: k < j ==> !OccursAt(href, StatusMarker, j)
    ensures !Contains(href[k + 8..], StatusMarker)
  {
    var field := href[k + 8..];
    forall j ensures !OccursAt(field, StatusMarker, j) {
      if 0 <= j && j + 8 <= |field| {
        assert !OccursAt(href, StatusMarker, k + 8 + j);
        assert field[j..j + 8] == href[k + 8 + j..k + 16 + j];
      }
    }
  }

  /**
   * The field after the marker: an id free of `/` and `?`, then any run of
   * `/`, then nothing or a query starting with `?`. The cut and the strip
   * leave exactly the id.
   */
  lemma IdFromField(id: string, slashes: string, q: string)
    requires '/' !in id && '?' !in id
    requires forall i :: 0 <= i < |slashes| ==> slashes[i] == '/'
    requires q == [] || q[0] == '?'
    ensures IdCut(id + slashes + q) == id
  {
    assert '?' !in id + slashes by {
      forall i | 0 <= i < |id + slashes| ensures (id + slashes)[i] != '?' {
        if i >= |id| {
          assert (id + slashes)[i] == slashes[i - |id|];
        }
      }
    }
    BeforeFirstStops(id + slashes, q, '?');
    assert [] + id + slashes == id + slashes;
    StripPadded([], id, slashes, {'/'});
  }

  /**
   * An href with a single `/status/`, such as `/user/status/123/?s=20`,
   * gives the id that follows it, read either way.
   */
  lemma {:induction false} HrefGivesId(prefix: string, id: string, slashes: string, q: string)
    requires '/' !in id && '?' !in id
    requires forall i :: 0 <= i < |slashes| ==> slashes[i] == '/'
    requires q == [] || q[0] == '?'
    requires forall j :: OccursAt(prefix + StatusMarker + id + slashes + q, StatusMarker, j) ==> j == |prefix|
    ensures TweetIdFromHref(prefix + StatusMarker + id + slashes + q) == Some(id)
    ensures TweetIdAfterLast(prefix + StatusMarker + id + slashes + q) == Some(id)
  {
    var href := prefix + StatusMarker + id + slashes + q;
    var k := |prefix|;
    var field := id + slashes + q;
    assert href == prefix + StatusMarker + field;
    assert href[k..k + 8] == StatusMarker;
    assert href[k + 8..] == field;
    OnlyMarker(href, k);
    IdFromField(id, slashes, q);
  }

  /** With a single `/status/`, both extractions read the field after it. */
  lemma OnlyMarker(href: string, k: nat)
    requires OccursAt(href, StatusMarker, k)
    requires forall j :: OccursAt(href, StatusMarker, j) ==> j == k
    ensures TweetIdFromHref(href) == Some(IdCut(href[k + 8..]))
    ensures TweetIdAfterLast(href) == Some(IdCut(href[k + 8..]))
  {
    var field := href[k + 8..];
    assert Find(href, StatusMarker) == Some(k) by {
      assert OccursAt(href, StatusMarker, Find(href, StatusMarker).value);
    }
    assert FindLast(href, StatusMarker) == Some(k) by {
      assert OccursAt(href, StatusMarker, FindLast(href, StatusMarker).value);
    }
    LastMarkerField(href, k);
    assert LastField(href, StatusMarker) == LastField(field, StatusMarker) == field;
  }

  /**
   * The corrected extraction gives the id after any prefix, as long as the
   * query holds no `/status/`. (An id "status" followed by `/` would itself
   * complete a marker.)
   */
  lemma {:induction false} AfterLastGivesId(prefix: string, id: string, slashes: string, q: string)
    requires '/' !in id && '?' !in id
    requires forall i :: 0 <= i < |slashes| ==> slashes[i] == '/'
    requires q == [] || q[0] == '?'
    requires !Contains(q, StatusMarker)
    requires slashes == [] || id != "status"
    ensures TweetIdAfterLast(prefix + StatusMarker + id + slashes + q) == Some(id)
  {
    var u := "/" + id + slashes + q;
    Regroup(prefix, id, slashes, q);
    FieldClear(id, slashes, q);
    LastMarkerBefore(prefix, u);
    AfterLastAt(prefix + "/status" + u, |prefix|);
    IdFromField(id, slashes, q);
  }

  lemma Regroup(prefix: string, id: string, slashes: string, q: string)
    ensures prefix + StatusMarker + id + slashes + q == prefix + "/status" + ("/" + id + slashes + q)
    ensures ("/" + id + slashes + q)[1..] == id + slashes + q
  {
    assert StatusMarker == "/status" + "/";
  }

  /** The corrected extraction reads the field after the marker `FindLast` finds. */
  lemma AfterLastAt(href: string, k: nat)
    requires FindLast(href, StatusMarker) == Some(k)
    ensures TweetIdAfterLast(href) == Some(IdCut(href[k + 8..]))
  {
    AfterLastReadsIdAfter(href, k);
    IdAfterCuts(href, k);
  }

  lemma AfterLastReadsIdAfter(href: string, k: nat)
    requires FindLast(href, StatusMarker) == Some(k)
    ensures TweetIdAfterLast(href) == Some(IdAfter(href, k))
  {
  }

  lemma IdAfterCuts(href: string, k: nat)
    requires OccursAt(href, StatusMarker, k)
    requires forall j :: k < j ==> !OccursAt(href, StatusMarker, j)
    ensures IdAfter(href, k) == IdCut(href[k + 8..])
  {
  }

  /**
   * When what follows `/status` is a `/` and then no further marker, the
   * corrected extraction reads the field after that `/`.
   */
  lemma LastMarkerBefore(prefix: string, u: string)
    requires u != [] && u[0] == '/' && !Contains(u, StatusMarker)
    ensures FindLast(prefix + "/status" + u, StatusMarker) == Some(|prefix|)
    ensures (prefix + "/status" + u)[|prefix| + 8..] == u[1..]
  {
    var href := prefix + "/status" + u;
    var k := |prefix|;
    MarkerSplit(prefix, u);
    forall j | k < j ensures !OccursAt(href, StatusMarker, j) {
      NoLaterMarker(prefix, u, j);
    }
    FindLastAt(href, StatusMarker, k);
  }

  lemma MarkerSplit(prefix: string, u: string)
    requires u != [] && u[0] == '/'
    ensures OccursAt(prefix + "/status" + u, StatusMarker, |prefix|)
    ensures (prefix + "/status" + u)[|prefix| + 8..] == u[1..]
  {
    var href := prefix + "/status" + u;
    var k := |prefix|;
    assert href[k..k + 8] == StatusMarker;
    assert href[k + 8..] == u[1..];
  }

  lemma NoLaterMarker(prefix: string, u: string, j: int)
    requires u != [] && u[0] == '/' && !Contains(u, StatusMarker) && |prefix| < j
    ensures !OccursAt(prefix + "/status" + u, StatusMarker, j)
  {
    var href := prefix + "/status" + u;
    var k := |prefix|;
    if j + 8 <= |href| {
      if j < k + 7 {
        assert href[k..k + 7] == "/status";
        assert href[j] == StatusMarker[j - k];
        assert href[j..j + 8][0] == href[j];
      } else {
        assert href[k + 7..] == u;
        var x, y := href[j..j + 8], u[j - k - 7..j - k + 1];
        forall i | 0 <= i < 8 ensures x[i] == y[i] {
          assert x[i] == href[j + i] && y[i] == u[j - k - 7 + i];
        }
        assert x == y;
        assert !OccursAt(u, StatusMarker, j - k - 7);
      }
    }
  }

  /** The closing `/` of the marker followed by the field starts no marker anywhere. */
  lemma FieldClear(id: string, slashes: string, q: string)
    requires '/' !in id && '?' !in id
    requires forall i :: 0 <= i < |slashes| ==> slashes[i] == '/'
    requires q == [] || q[0] == '?'
    requires !Contains(q, StatusMarker)
    requires slashes == [] || id != "status"
    ensures !Contains("/" + id + slashes + q, StatusMarker)
  {
    var u := "/" + id + slashes + q;
    var a := 1 + |id|;
    var b := a + |slashes|;
    forall j ensures !OccursAt(u, StatusMarker, j) {
      if 0 <= j && j + 8 <= |u| {
        if j == 0 {
          StraddleClear(id, slashes, q);
        } else if j < a {
          assert u[j] == id[j - 1];
          assert u[j..j + 8][0] == u[j];
        } else if j < b {
          SlashRunClear(id, slashes, q, j);
        } else {
          assert u[j..j + 8] == q[j - b..j - b + 8];
          assert !OccursAt(q, StatusMarker, j - b);
        }
      }
    }
  }

  /** Inside the run of `/`, the next character is `/` or `?`, never the `s` of a marker. */
  lemma SlashRunClear(id: string, slashes: string, q: string, j: int)
    requires forall i :: 0 <= i < |slashes| ==> slashes[i] == '/'
    requires q == [] || q[0] == '?'
    requires 1 + |id| <= j < 1 + |id| + |slashes|
    ensures !OccursAt("/" + id + slashes + q, StatusMarker, j)
  {
    var u := "/" + id + slashes + q;
    var a := 1 + |id|;
    if j + 8 <= |u| {
      if j + 1 < a + |slashes| {
        assert u[j + 1] == slashes[j + 1 - a];
      } else {
        assert u[j + 1] == q[0];
      }
      assert u[j..j + 8][1] == u[j + 1];
    }
  }

  /** The `/` that closes `/status` does not open a second marker. */
  lemma StraddleClear(id: string, slashes: string, q: string)
    requires '/' !in id && '?' !in id
    requires forall i :: 0 <= i < |slashes| ==> slashes[i] == '/'
    requires q == [] || q[0] == '?'
    requires slashes == [] || id != "status"
    ensures !OccursAt("/" + id + slashes + q, StatusMarker, 0)
  {
    var u := "/" + id + slashes + q;
    if |u| >= 8 {
      var w := u[0..8];
      var t := |id|;
      if t >= 7 {
        assert w[7] == id[6];
        assert w[7] != StatusMarker[7];
      } else if slashes != [] {
        assert w[1 + t] == slashes[0];
        if t < 6 {
          assert w[1 + t] != StatusMarker[1 + t];
        } else {
          assert id != "status";
          var i :| 0 <= i < 6 && id[i] != "status"[i];
          assert w[1 + i] == id[i];
          assert w[1 + i] != StatusMarker[1 + i];
        }
      } else {
        assert w[1 + t] == q[0] == '?';
        assert w[1 + t] != StatusMarker[1 + t];
      }
    }
  }

  /**
   * Whatever comes before it, `/status/` followed by an id free of `/` and
   * `?` gives that id back.
   */
  lemma AfterLastRecoversId(prefix: string, id: string)
    requires '/' !in id && '?' !in id
    ensures TweetIdAfterLast(prefix + StatusMarker + id) == Some(id)
  {
    assert prefix + StatusMarker + id + [] + [] == prefix + StatusMarker + id;
    assert !Contains([], StatusMarker);
    AfterLastGivesId(prefix, id, [], []);
  }

  /** The permalink a notification ends with names the tweet it announces. */
  lemma MessageNamesTweet(username: string, t: Tweet)
    requires '/' !in t.id && '?' !in t.id
    ensures TweetIdAfterLast(Link(username, t.id)) == Some(t.id)
    ensures TweetIdAfterLast(Message(username, t)) == Some(t.id)
  {
    var site := "https://x.com/" + username;
    var link := Link(username, t.id);
    assert link == site + StatusMarker + t.id;
    AfterLastRecoversId(site, t.id);
    EndsWithLink(Message(username, t), site, t.id);
  }

  lemma EndsWithLink(msg: string, site: string, id: string)
    requires '/' !in id && '?' !in id
    requires |msg| >= |site + StatusMarker + id| && msg[|msg| - |site + StatusMarker + id|..] == site + StatusMarker + id
    ensures TweetIdAfterLast(msg) == Some(id)
  {
    var head := msg[..|msg| - |site + StatusMarker + id|];
    assert msg == (head + site) + StatusMarker + id;
    AfterLastRecoversId(head + site, id);
  }

  /**
   * The href of a tweet by an account named "status", such as
   * `/status/status/123`: the left-to-right split stops at the first
   * `/status/`, so the id comes out as `status/123`, while the last
   * `/status/` gives `123`.
   */
  lemma {:induction false} SplitTakesWrongField(id: string)
    requires id != [] && '/' !in id && '?' !in id
    ensures TweetIdFromHref(StatusMarker + "status/" + id) == Some("status/" + id)
  {
    var rest := "status/" + id;
    assert StatusMarker + "status/" + id == StatusMarker + rest;
    NoSecondMarker(id);
    assert rest[0] == 's' && rest[|rest| - 1] == id[|id| - 1];
    assert '?' !in rest;
    FirstFieldAfterMarker(rest);
  }

  lemma NoSecondMarker(id: string)
    requires '/' !in id
    ensures !Contains("status/" + id, StatusMarker)
  {
    var rest := "status/" + id;
    forall j ensures !OccursAt(rest, StatusMarker, j) {
      if 0 <= j && j + 8 <= |rest| {
        if j == 6 {
          assert rest[j..j + 8][7] == id[6] != StatusMarker[7];
        } else {
          assert rest[j..j + 8][0] == rest[j] != StatusMarker[0];
        }
      }
    }
  }

  /** A field with no `?` and no `/` at its ends passes through the cut and the strip. */
  lemma FieldUntouched(field: string)
    requires '?' !in field && (field == [] || (field[0] != '/' && field[|field| - 1] != '/'))
    ensures IdCut(field) == field
  {
    BeforeFirstAbsent(field, '?');
    var query := BeforeFirst(field, '?');
    assert query == field;
    StripUntouched(query, {'/'});
  }

  /** The same href read from its last `/status/` gives the id. */
  lemma {:induction false} AfterLastSkipsAccount(id: string)
    requires '/' !in id && '?' !in id
    ensures TweetIdAfterLast(StatusMarker + "status/" + id) == Some(id)
  {
    var account := "/status";
    var field := "status/";
    assert account + StatusMarker == StatusMarker + field;
    assert account + StatusMarker + id == StatusMarker + field + id;
    AfterLastRecoversId(account, id);
  }

  /**
   * After a leading `/status/`, a field with no second marker, no `?` and
   * no `/` at its ends is the id.
   */
  lemma FirstFieldAfterMarker(rest: string)
    requires !Contains(rest, StatusMarker) && '?' !in rest
    requires rest == [] || (rest[0] != '/' && rest[|rest| - 1] != '/')
    ensures TweetIdFromHref(StatusMarker + rest) == Some(rest)
  {
    var href := StatusMarker + rest;
    assert href[..8] == StatusMarker;
    assert href[8..] == rest;
    assert Find(href, StatusMarker) == Some(0);
    assert LastField(href, StatusMarker) == rest;
    FieldUntouched(rest);
  }
}
