/**
 * The chain of SQL posts a click on the button starts: TRUNCATE; on success
 * the existing-table path, on failure the new-table path; then CREATE, then
 * INSERT, and for a new table the cartodbfy-and-UPDATE statement with one
 * fallback variant. Each post is sent before its reply arrives; the
 * replies are outcomes supplied by the caller (true for `.done`, false for
 * `.fail`); when they run out the chain is still waiting for the reply to
 * its last post.
 */
module Workflow {
  import opened Strings
  import opened Hypercube
  import opened CreateTable
  import opened InsertRows

  /** The module-wide `status` flag: `IDLE = 0`, `SENDING = 1`. */
  datatype Status = Idle | Sending

  /** The text of the `#open_in_carto` button. */
  datatype Label = OpenText | SendingText | SuccessText | RetryText

  /** What the statements read from the layout. */
  datatype Layout = Layout(account: string, tableName: string, dims: seq<Dimension>)

  datatype Post = Truncate | Create | InsertNew | InsertExisting | Cartodbfy | CartodbfyFallback

  /** Where the chain stands: the post awaiting its reply, or the end. */
  datatype Phase =
    | Truncating
    | Creating(newTable: bool)
    | Inserting(newTable: bool)
    | Cartodbfying
    | CartodbfyingFallback
    | Finished(success: bool)

  /** The most posts still to come from a phase. */
  function Remaining(p: Phase): nat
  {
    match p
    case Truncating => 5
    case Creating(newTable) => if newTable then 4 else 2
    case Inserting(newTable) => if newTable then 3 else 1
    case Cartodbfying => 2
    case CartodbfyingFallback => 1
    case Finished(_) => 0
  }

  function PostOf(p: Phase): Post
    requires !p.Finished?
  {
    match p
    case Truncating => Truncate
    case Creating(_) => Create
    case Inserting(newTable) => if newTable then InsertNew else InsertExisting
    case Cartodbfying => Cartodbfy
    case CartodbfyingFallback => CartodbfyFallback
  }

  /** The callback the reply runs: `.done` when `ok`, `.fail` otherwise. */
  function Next(p: Phase, ok: bool): (q: Phase)
    requires !p.Finished?
    ensures Remaining(q) < Remaining(p)
    ensures q.Finished? ==> q.success == (ok && PostOf(p) in {InsertExisting, Cartodbfy, CartodbfyFallback})
  {
    match p
    case Truncating => Creating(!ok)
    case Creating(newTable) => if ok then Inserting(newTable) else Finished(false)
    case Inserting(newTable) => if !ok then Finished(false) else if newTable then Cartodbfying else Finished(true)
    case Cartodbfying => if ok then Finished(true) else CartodbfyingFallback
    case CartodbfyingFallback => Finished(ok)
  }

  datatype Trace = Trace(posts: seq<Post>, phase: Phase)

  /**
   * Runs the chain from `p` on the replies `outcomes`: the posts sent, in
   * order, and the phase reached. The post of a waiting phase is sent
   * before its reply, so a chain still waiting has sent one post more than
   * it has replies, the last being the one awaiting its reply; a finished
   * chain has had a reply for every post. At most `Remaining(p)` posts are
   * sent, and the chain finishes once that many replies are available.
   */
  function Drive(p: Phase, outcomes: seq<bool>): (t: Trace)
    ensures |t.posts| <= Remaining(p) && |t.posts| <= |outcomes| + 1
    ensures t.phase.Finished? ==> |t.posts| <= |outcomes|
    ensures !t.phase.Finished? ==> |t.posts| == |outcomes| + 1 && t.posts[|t.posts| - 1] == PostOf(t.phase)
    ensures !p.Finished? ==> |t.posts| > 0 && t.posts[0] == PostOf(p)
    ensures |outcomes| >= Remaining(p) ==> t.phase.Finished?
    ensures p.Finished? ==> t == Trace([], p)
    decreases |outcomes|
  {
    if p.Finished? then Trace([], p)
    else if |outcomes| == 0 then Trace([PostOf(p)], p)
    else
      var rest := Drive(Next(p, outcomes[0]), outcomes[1..]);
      Trace([PostOf(p)] + rest.posts, rest.phase)
  }

  function StatusOf(p: Phase): Status
  {
    if p.Finished? then Idle else Sending
  }

  function LabelOf(p: Phase): Label
  {
    match p
    case Finished(success) => if success then SuccessText else RetryText
    case _ => SendingText
  }

  /** The posts of each path: the new-table path lists the fallback too. */
  function Path(newTable: bool): seq<Post>
  {
    if newTable then [Truncate, Create, InsertNew, Cartodbfy, CartodbfyFallback]
    else [Truncate, Create, InsertExisting]
  }

  /** The replies for which the chain ends in "Success", stated directly. */
  predicate Succeeds(o: seq<bool>)
  {
    && |o| >= 3 && o[1] && o[2]
    && (o[0] || (|o| >= 4 && (o[3] || (|o| >= 5 && o[4]))))
  }

  /** The SQL text of each post (`sqlNames`/`sqlValues` from the serializer). */
  function Sql(post: Post, layout: Layout, rows: seq<DataRow>): string
    requires RowsFit(layout.dims, rows)
  {
    var table := layout.tableName;
    match post
    case Truncate => TruncateSql(table)
    case Create => CreateStatement(table, layout.dims)
    case InsertNew => InsertNewSql(table, ValuesList(layout.dims, rows, true))
    case InsertExisting => InsertExistingSql(table, Header(layout.dims, rows, false), ValuesList(layout.dims, rows, false))
    case Cartodbfy => CartodbfySql(layout.account, table)
    case CartodbfyFallback => CartodbfyFallbackSql(table)
  }

  function TruncateSql(table: string): string
  {
    "TRUNCATE TABLE " + table
  }

  /** The new-table INSERT names no columns. */
  function InsertNewSql(table: string, values: string): string
  {
    "INSERT INTO " + table + " VALUES " + values
  }

  function InsertExistingSql(table: string, names: string, values: string): string
  {
    "INSERT INTO " + table + " " + names + " VALUES " + values
  }

  function CartodbfySql(account: string, table: string): string
  {
    "SELECT cdb_cartodbfytable('" + account + "', '" + table + "'); UPDATE " + table
    + " SET the_geom=ST_SetSRID(ST_MakePoint(longitude, latitude),4326);"
  }

  function CartodbfyFallbackSql(table: string): string
  {
    "SELECT cdb_cartodbfytable('" + table + "'); UPDATE " + table
    + " SET the_geom=ST_SetSRID(ST_MakePoint(longitude, latitude),4326);"
  }

  function Statements(posts: seq<Post>, layout: Layout, rows: seq<DataRow>): (texts: seq<string>)
    requires RowsFit(layout.dims, rows)
    ensures |texts| == |posts|
  {
    seq(|posts|, i requires 0 <= i < |posts| => Sql(posts[i], layout, rows))
  }

  /** One reply consumed: the post of `p`, then the chain from the phase its callback selects. */
  lemma DriveStep(p: Phase, outcomes: seq<bool>)
    requires !p.Finished? && |outcomes| > 0
    ensures var rest := Drive(Next(p, outcomes[0]), outcomes[1..]);
      && Drive(p, outcomes).posts == [PostOf(p)] + rest.posts
      && Drive(p, outcomes).phase == rest.phase
  {
  }

  /**
   * One more reply: a waiting chain runs that reply's callback, which sends
   * the next statement unless it ends the chain; a finished chain ignores
   * the reply.
   */
  lemma {:induction false} DriveSnoc(p: Phase, outcomes: seq<bool>, ok: bool)
    ensures var t := Drive(p, outcomes);
      Drive(p, outcomes + [ok]) ==
        if t.phase.Finished? then t
        else Trace(t.posts + Sent(Next(t.phase, ok)), Next(t.phase, ok))
    decreases |outcomes|
  {
    if !p.Finished? {
      var q := Next(p, if |outcomes| > 0 then outcomes[0] else ok);
      assert (outcomes + [ok])[1..] == if |outcomes| > 0 then outcomes[1..] + [ok] else [];
      if |outcomes| > 0 {
        DriveSnoc(q, outcomes[1..], ok);
        var t := Drive(q, outcomes[1..]);
        if !t.phase.Finished? {
          var r := Next(t.phase, ok);
          assert [PostOf(p)] + (t.posts + Sent(r)) == ([PostOf(p)] + t.posts) + Sent(r);
        }
      }
    }
  }

  /** The post a callback sends on entering phase `q`: none when it ends the chain. */
  function Sent(q: Phase): seq<Post>
  {
    if q.Finished? then [] else [PostOf(q)]
  }

  /** Replies that arrive after the chain has finished change nothing. */
  lemma {:induction false} DriveExtends(p: Phase, outcomes: seq<bool>, later: seq<bool>)
    requires Drive(p, outcomes).phase.Finished?
    ensures Drive(p, outcomes + later) == Drive(p, outcomes)
    decreases |outcomes|
  {
    if !p.Finished? {
      assert (outcomes + later)[1..] == outcomes[1..] + later;
      DriveExtends(Next(p, outcomes[0]), outcomes[1..], later);
    }
  }

  lemma StatementsSnoc(posts: seq<Post>, post: Post, layout: Layout, rows: seq<DataRow>)
    requires RowsFit(layout.dims, rows)
    ensures Statements(posts + [post], layout, rows) == Statements(posts, layout, rows) + [Sql(post, layout, rows)]
  {
  }

  /**
   * TRUNCATE is posted first, before any reply, and the posts sent always
   * follow one path: the existing-table path when TRUNCATE succeeds, the
   * new-table path when it fails.
   */
  lemma PostsFollowPath(outcomes: seq<bool>)
    ensures var posts := Drive(Truncating, outcomes).posts;
      && |posts| > 0 && posts[0] == Truncate
      && (|outcomes| > 0 ==> posts <= Path(!outcomes[0]))
  {
    if |outcomes| > 0 {
      var newTable := !outcomes[0];
      DriveStep(Truncating, outcomes);
      PostsWithinPath(Creating(newTable), outcomes[1..]);
      PathFromCreating(newTable);
    }
  }

  /**
   * The posts still possible from a phase after TRUNCATE: each phase's own
   * post followed by the path from the phase its `.done` leads to, with the
   * fallback after the first cartodbfy.
   */
  function PathFrom(p: Phase): seq<Post>
    requires !p.Truncating?
  {
    match p
    case Creating(newTable) => [Create] + (if newTable then [InsertNew, Cartodbfy, CartodbfyFallback] else [InsertExisting])
    case Inserting(newTable) => if newTable then [InsertNew, Cartodbfy, CartodbfyFallback] else [InsertExisting]
    case Cartodbfying => [Cartodbfy, CartodbfyFallback]
    case CartodbfyingFallback => [CartodbfyFallback]
    case Finished(_) => []
  }

  lemma PathFromCreating(newTable: bool)
    ensures Path(newTable) == [Truncate] + PathFrom(Creating(newTable))
  {
  }

  /** Whatever the replies, the posts from a phase after TRUNCATE are a prefix of its path. */
  lemma {:induction false} PostsWithinPath(p: Phase, outcomes: seq<bool>)
    requires !p.Truncating?
    ensures Drive(p, outcomes).posts <= PathFrom(p)
    decreases |outcomes|
  {
    if !p.Finished? && |outcomes| > 0 {
      var q := Next(p, outcomes[0]);
      DriveStep(p, outcomes);
      PostsWithinPath(q, outcomes[1..]);
      assert PathFrom(p) == [PostOf(p)] + PathFrom(q) || PathFrom(q) == [];
    }
  }

  /** A failed CREATE ends the chain with "Retry" and no INSERT. */
  lemma CreateFailureStops(outcomes: seq<bool>)
    requires |outcomes| >= 2 && !outcomes[1]
    ensures Drive(Truncating, outcomes) == Trace([Truncate, Create], Finished(false))
  {
    var o := outcomes;
    assert o[1..][1..] == o[2..];
    assert Drive(Creating(!o[0]), o[1..]) == Trace([Create], Finished(false));
  }

  /** The chain ends in "Success" exactly for the replies `Succeeds` describes. */
  lemma SuccessIff(outcomes: seq<bool>)
    ensures Drive(Truncating, outcomes).phase == Finished(true) <==> Succeeds(outcomes)
  {
    var o := outcomes;
    if |o| > 0 {
      var t1 := Drive(Creating(!o[0]), o[1..]);
      assert Drive(Truncating, o).phase == t1.phase;
      if |o| > 1 {
        assert o[1..][1..] == o[2..];
        if o[1] {
          var t2 := Drive(Inserting(!o[0]), o[2..]);
          assert t1.phase == t2.phase;
          if |o| > 2 {
            assert o[2..][1..] == o[3..];
            if o[2] && !o[0] {
              var t3 := Drive(Cartodbfying, o[3..]);
              assert t2.phase == t3.phase;
              if |o| > 3 {
                assert o[3..][1..] == o[4..];
                if !o[3] {
                  assert t3.phase == Drive(CartodbfyingFallback, o[4..]).phase;
                  if |o| > 4 {
                    assert o[4..][1..] == o[5..];
                  }
                }
              }
            }
          }
        }
      }
    }
  }

  /**
   * "Success" is shown only after the last post of the path taken (the
   * existing-table INSERT or either cartodbfy variant) has succeeded.
   */
  lemma {:induction false} SuccessAfterLastPost(p: Phase, outcomes: seq<bool>)
    requires !p.Finished?
    ensures var t := Drive(p, outcomes);
      t.phase == Finished(true) ==>
        && |t.posts| > 0
        && t.posts[|t.posts| - 1] in {InsertExisting, Cartodbfy, CartodbfyFallback}
        && outcomes[|t.posts| - 1]
    decreases |outcomes|
  {
    if |outcomes| > 0 {
      var q := Next(p, outcomes[0]);
      if !q.Finished? {
        SuccessAfterLastPost(q, outcomes[1..]);
      }
    }
  }

  /**
   * The fallback cartodbfy is posted exactly when the first variant fails
   * on the new-table path, as soon as that failure is the fourth reply.
   */
  lemma FallbackOnlyAfterCartodbfyFails(outcomes: seq<bool>)
    ensures CartodbfyFallback in Drive(Truncating, outcomes).posts <==>
      |outcomes| >= 4 && !outcomes[0] && outcomes[1] && outcomes[2] && !outcomes[3]
  {
    PostsFollowPath(outcomes);
    FivePosts(outcomes);
    if |outcomes| > 0 {
      FallbackLast(Drive(Truncating, outcomes).posts, !outcomes[0]);
    } else {
      assert Drive(Truncating, outcomes).posts == [Truncate];
    }
  }

  /** On either path the fallback can only be the fifth post. */
  lemma FallbackLast(posts: seq<Post>, newTable: bool)
    requires posts <= Path(newTable)
    ensures CartodbfyFallback in posts <==> |posts| == 5
  {
    var path := Path(newTable);
    if newTable {
      if CartodbfyFallback in posts {
        var i :| 0 <= i < |posts| && posts[i] == CartodbfyFallback;
        assert path[i] == CartodbfyFallback;
      }
      if |posts| == 5 {
        assert posts[4] == CartodbfyFallback;
      }
    } else {
      assert forall i :: 0 <= i < |posts| ==> posts[i] == path[i] != CartodbfyFallback;
    }
  }

  lemma FivePosts(outcomes: seq<bool>)
    ensures |Drive(Truncating, outcomes).posts| == 5 <==>
      |outcomes| >= 4 && !outcomes[0] && outcomes[1] && outcomes[2] && !outcomes[3]
  {
    var o := outcomes;
    if |o| > 0 {
      var t1 := Drive(Creating(!o[0]), o[1..]);
      assert |Drive(Truncating, o).posts| == 1 + |t1.posts|;
      if |o| > 1 {
        assert o[1..][1..] == o[2..];
        if o[1] {
          var t2 := Drive(Inserting(!o[0]), o[2..]);
          assert |t1.posts| == 1 + |t2.posts|;
          if |o| > 2 {
            assert o[2..][1..] == o[3..];
            if o[2] && !o[0] {
              var t3 := Drive(Cartodbfying, o[3..]);
              assert |t2.posts| == 1 + |t3.posts|;
              if |o| > 3 {
                assert o[3..][1..] == o[4..];
                if !o[3] {
                  assert |t3.posts| == 1 + |Drive(CartodbfyingFallback, o[4..]).posts|;
                }
              }
            }
          }
        }
      }
    }
  }
}
