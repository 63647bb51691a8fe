/**
 * The audio-moment handlers of routes/moments.js over `moments`, `moment_likes` and
 * `moment_comments`: posting, the public feed of the 50 newest, liking and commenting.
 */
module MomentRoutes {
  import opened Common
  import opened Rows
  import opened Text
  import opened Schema

  /** The maximum number of moments in the feed: `LIMIT 50`. */
  const FeedLimit: nat := 50

  /**
   * `POST /`: 400 without a truthy audio URL; otherwise one moment of the caller with no
   * views is added and returned, its description `""` when none was given.
   */
  method PostMoment(db: Store, caller: int, audioUrl: Option<string>, description: Option<string>, now: int)
    returns (reply: Reply<Moment>)
    requires db.Valid()
    modifies db`moments, db`nextMomentId
    ensures db.Valid()
    ensures !Truthy(audioUrl) ==> reply == Fail(400) && unchanged(db)
    ensures Truthy(audioUrl) ==>
      var m := Moment(old(db.nextMomentId), caller, audioUrl.value, OrElse(description, ""), now, 0);
      reply == Ok(m) && db.moments == old(db.moments) + [m]
  {
    if !Truthy(audioUrl) {
      return Fail(400);
    }
    var m := Moment(db.nextMomentId, caller, audioUrl.value, OrElse(description, ""), now, 0);
    db.moments := db.moments + [m];
    db.nextMomentId := db.nextMomentId + 1;
    reply := Ok(m);
  }

  /** `m.*` with the author's `username`, `full_name` and `avatar_url`. */
  datatype FeedItem = FeedItem(moment: Moment, username: string, fullName: string, avatarUrl: Option<string>)

  function ItemOf(m: Moment, u: User): FeedItem
  {
    FeedItem(m, u.username, u.fullName, u.avatarUrl)
  }

  /**
   * `JOIN users u ON m.user_id = u.id`, in table order: each item is a stored moment with
   * its author, and every stored moment whose author exists is there.
   */
  function Joined(users: seq<User>, ms: seq<Moment>): (items: seq<FeedItem>)
    ensures |items| <= |ms|
    ensures forall e :: e in items ==>
      e.moment in ms && exists u :: u in users && u.id == e.moment.userId && e == ItemOf(e.moment, u)
    ensures forall m :: m in ms && (exists u :: u in users && u.id == m.userId) ==>
      exists e :: e in items && e.moment == m
  {
    if ms == [] then []
    else
      var rest := Joined(users, ms[1..]);
      assert forall m :: m in ms <==> m == ms[0] || m in ms[1..];
      match UserById(users, ms[0].userId)
      case None => rest
      case Some(u) =>
        var items := [ItemOf(ms[0], u)] + rest;
        assert items[0] in items;
        assert forall e :: e in rest ==> e in items;
        items
  }

  /**
   * With unique user ids, a stored moment whose author exists is joined with that author
   * once per occurrence of the moment in the table, no more and no fewer.
   */
  lemma JoinedListedOnce(users: seq<User>, next: int, ms: seq<Moment>, m: Moment, u: User)
    requires UsersKeyed(users, next)
    requires u in users && u.id == m.userId
    ensures multiset(Joined(users, ms))[ItemOf(m, u)] == multiset(ms)[m]
  {
    UserByIdUnique(users, next, u);
    JoinedCount(users, ms, m, u);
  }

  /** Counting by induction over the table, given that the lookup finds `u`. */
  lemma {:induction false} JoinedCount(users: seq<User>, ms: seq<Moment>, m: Moment, u: User)
    requires UserById(users, m.userId) == Some(u)
    ensures multiset(Joined(users, ms))[ItemOf(m, u)] == multiset(ms)[m]
  {
    if ms != [] {
      var rest := Joined(users, ms[1..]);
      JoinedCount(users, ms[1..], m, u);
      assert ms == [ms[0]] + ms[1..];
      assert multiset(ms)[m] == (if ms[0] == m then 1 else 0) + multiset(ms[1..])[m];
      match UserById(users, ms[0].userId)
      case None =>
        assert Joined(users, ms) == rest;
      case Some(v) =>
        assert Joined(users, ms) == [ItemOf(ms[0], v)] + rest;
        assert ItemOf(ms[0], v) == ItemOf(m, u) <==> ms[0] == m;
    }
  }

  /** `ORDER BY m.created_at DESC` as an ascending key. */
  function Newest(e: FeedItem): int
  {
    -e.moment.createdAt
  }

  /**
   * `GET /`: at most 50 items, newest first; each is a stored moment with its author, and
   * every joined moment left out is no newer than every one shown.
   */
  function Feed(users: seq<User>, ms: seq<Moment>): (feed: seq<FeedItem>)
    ensures |feed| == if |Joined(users, ms)| < FeedLimit then |Joined(users, ms)| else FeedLimit
    ensures forall i, j :: 0 <= i < j < |feed| ==> feed[i].moment.createdAt >= feed[j].moment.createdAt
    ensures forall e :: e in feed ==> e in Joined(users, ms)
    ensures multiset(feed) <= multiset(Joined(users, ms))
    ensures forall y :: y in multiset(Joined(users, ms)) - multiset(feed) ==>
      forall k :: 0 <= k < |feed| ==> feed[k].moment.createdAt >= y.moment.createdAt
  {
    var joined := Joined(users, ms);
    var sorted := SortBy(joined, Newest);
    var n := if |sorted| < FeedLimit then |sorted| else FeedLimit;
    var feed := sorted[..n];
    NewestPrefix(joined, sorted, n, feed);
    feed
  }

  /** The first `n` rows of the sorted join are the newest `n`. */
  lemma NewestPrefix(joined: seq<FeedItem>, sorted: seq<FeedItem>, n: nat, feed: seq<FeedItem>)
    requires SortedBy(sorted, Newest) && multiset(sorted) == multiset(joined) && n <= |sorted|
    requires feed == sorted[..n]
    ensures |feed| == n
    ensures forall i, j :: 0 <= i < j < |feed| ==> feed[i].moment.createdAt >= feed[j].moment.createdAt
    ensures forall e :: e in feed ==> e in joined
    ensures multiset(feed) <= multiset(joined)
    ensures forall y :: y in multiset(joined) - multiset(feed) ==>
      forall k :: 0 <= k < |feed| ==> feed[k].moment.createdAt >= y.moment.createdAt
  {
    assert sorted == feed + sorted[n..];
    assert multiset(sorted) == multiset(feed) + multiset(sorted[n..]);
    forall e | e in feed ensures e in joined {
      assert e in multiset(feed);
      assert e in multiset(joined);
    }
    forall i, j | 0 <= i < j < |feed| ensures feed[i].moment.createdAt >= feed[j].moment.createdAt {
      assert feed[i] == sorted[i] && feed[j] == sorted[j];
      assert Newest(sorted[i]) <= Newest(sorted[j]);
    }
    forall y | y in multiset(joined) - multiset(feed)
      ensures forall k :: 0 <= k < |feed| ==> feed[k].moment.createdAt >= y.moment.createdAt
    {
      LimitKeepsSmallest(sorted, Newest, n, y);
      assert forall k :: 0 <= k < |feed| ==> feed[k] == sorted[k];
    }
  }

  /** With fewer than 50 joined moments, all of them are in the feed. */
  lemma FeedShowsAllWhenFew(users: seq<User>, ms: seq<Moment>)
    requires |Joined(users, ms)| <= FeedLimit
    ensures multiset(Feed(users, ms)) == multiset(Joined(users, ms))
  {
    var f, j := Feed(users, ms), Joined(users, ms);
    assert |f| == |j|;
    MultisetSubsetSameSize(f, j);
  }

  /** A moment whose author has no `users` row is never in the feed. */
  lemma FeedNeedsAuthor(users: seq<User>, ms: seq<Moment>, e: FeedItem)
    requires forall u :: u in users ==> u.id != e.moment.userId
    ensures e !in Feed(users, ms)
  {
  }

  /** `POST /like`: 400 without a truthy moment id; otherwise the caller's like is recorded once. */
  method LikeMoment(db: Store, caller: int, momentId: Option<int>) returns (reply: Reply<()>)
    requires db.Valid()
    modifies db`momentLikes
    ensures db.Valid()
    ensures !TruthyId(momentId) ==> reply == Fail(400) && db.momentLikes == old(db.momentLikes)
    ensures TruthyId(momentId) ==>
      reply == Ok(()) && db.momentLikes == InsertIfAbsent(old(db.momentLikes), Like(momentId.value, caller))
  {
    if !TruthyId(momentId) {
      return Fail(400);
    }
    InsertIfAbsentOnce(db.momentLikes, Like(momentId.value, caller));
    db.momentLikes := InsertIfAbsent(db.momentLikes, Like(momentId.value, caller));
    reply := Ok(());
  }

  /**
   * `POST /comment`: 400 without a truthy moment id or with blank content; otherwise one
   * comment with the trimmed content is added and returned.
   */
  method CommentOn(db: Store, caller: int, momentId: Option<int>, content: Option<string>, now: int)
    returns (reply: Reply<Comment>)
    requires db.Valid()
    modifies db`momentComments, db`nextCommentId
    ensures db.Valid()
    ensures !TruthyId(momentId) || Blank(content) ==> reply == Fail(400) && unchanged(db)
    ensures TruthyId(momentId) && !Blank(content) ==>
      var c := Comment(old(db.nextCommentId), momentId.value, caller, Trim(content.value), now);
      reply == Ok(c) && db.momentComments == old(db.momentComments) + [c]
  {
    if !TruthyId(momentId) || Blank(content) {
      return Fail(400);
    }
    var c := Comment(db.nextCommentId, momentId.value, caller, Trim(content.value), now);
    db.momentComments := db.momentComments + [c];
    db.nextCommentId := db.nextCommentId + 1;
    reply := Ok(c);
  }
}
