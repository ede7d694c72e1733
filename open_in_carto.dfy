/**
 * The extension object: the module-level variables it updates (`lastRow`,
 * `status` and, in place of the DOM, the button's text), `paint` with its
 * paging loop, and the click handler that runs the chain of posts.
 */
module OpenInCarto {
  import opened Strings
  import opened Hypercube
  import opened Pagination
  import opened CreateTable
  import opened InsertRows
  import opened Workflow

  class Extension {
    var lastRow: int
    var status: Status
    var buttonText: Label

    /** The button reads "Sending..." exactly while a chain of posts is in flight. */
    ghost predicate Valid()
      reads this
    {
      status == Sending <==> buttonText == SendingText
    }

    constructor ()
      ensures Valid()
      ensures lastRow == 0 && status == Idle && buttonText == OpenText
    {
      lastRow := 0;
      status := Idle;
      buttonText := OpenText;
    }

    /**
     * The paging part of `paint`, with each asynchronous re-entry taken as
     * one loop iteration: requests the plan's pages, each as wide as the
     * layout has dimensions, in order, then resets the cursor so that the
     * next export starts from the beginning.
     */
    method FetchPages(layout: Layout, rowCount: int) returns (requests: seq<PageRequest>)
      modifies this`lastRow
      ensures requests == Plan(old(lastRow), rowCount, |layout.dims|)
      ensures lastRow == 0
    {
      var width := |layout.dims|;
      requests := [];
      ghost var plan := Plan(lastRow, rowCount, width);
      while lastRow < rowCount - 1
        invariant requests + Plan(lastRow, rowCount, width) == plan
        decreases rowCount - lastRow
      {
        var qHeight := if CHUNK_SIZE < rowCount - lastRow then CHUNK_SIZE else rowCount - lastRow;
        var page := PageRequest(lastRow + 1, 0, width, qHeight);
        PlanStep(lastRow, rowCount, width);
        assert requests + [page] + Plan(lastRow + qHeight, rowCount, width) == plan;
        requests := requests + [page];
        lastRow := lastRow + qHeight;
      }
      lastRow := 0;
    }

    /**
     * `paint`: fetches every page, then redraws the button (showing
     * "Open in CARTO" again) only while no chain of posts is in flight.
     */
    method Paint(layout: Layout, rowCount: int) returns (requests: seq<PageRequest>)
      requires Valid()
      modifies this`lastRow, this`buttonText
      ensures Valid()
      ensures requests == Plan(old(lastRow), rowCount, |layout.dims|) && lastRow == 0
      ensures status == old(status)
      ensures buttonText == if status == Idle then OpenText else old(buttonText)
    {
      requests := FetchPages(layout, rowCount);
      if status == Idle {
        buttonText := OpenText;
      }
    }

    /**
     * The click handler: sets `status` to SENDING, shows "Sending...",
     * posts TRUNCATE and runs the chain of callbacks on the replies
     * `outcomes`. The statements sent include the one still awaiting its
     * reply; the state is the one the last callback leaves: IDLE with
     * "Success" or "Retry" once a terminal callback has run, still SENDING
     * while a reply is awaited.
     */
    method Click(layout: Layout, rows: seq<DataRow>, outcomes: seq<bool>) returns (issued: seq<string>)
      requires RowsFit(layout.dims, rows)
      modifies this`status, this`buttonText
      ensures Valid()
      ensures var t := Drive(Truncating, outcomes);
        && issued == Statements(t.posts, layout, rows)
        && status == StatusOf(t.phase)
        && buttonText == LabelOf(t.phase)
    {
      status := Sending;
      buttonText := SendingText;
      var phase;
      issued, phase := RunChain(layout, rows, outcomes);
      Settle(phase);
    }

    /**
     * What the callbacks do to the module state after a reply: a terminal
     * callback sets `status` back to IDLE and shows "Success" or "Retry";
     * one that posts the next statement leaves both as they are.
     */
    method Settle(phase: Phase)
      requires status == Sending && buttonText == SendingText
      modifies this`status, this`buttonText
      ensures status == StatusOf(phase) && buttonText == LabelOf(phase)
    {
      if phase.Finished? {
        status := Idle;
        buttonText := if phase.success then SuccessText else RetryText;
      }
    }
  }

  /**
   * The chain of posts and their `.done`/`.fail` callbacks: TRUNCATE is
   * posted at once; each reply in `outcomes` runs the callback of the post
   * awaiting it, which either posts the next statement or ends the chain,
   * until a terminal callback runs or the replies run out. The texts sent
   * and the phase reached are those of `Drive(Truncating, outcomes)`.
   */
  method RunChain(layout: Layout, rows: seq<DataRow>, outcomes: seq<bool>)
    returns (issued: seq<string>, phase: Phase)
    requires RowsFit(layout.dims, rows)
    ensures var t := Drive(Truncating, outcomes);
      issued == Statements(t.posts, layout, rows) && phase == t.phase
  {
    phase := Truncating;
    var sql := PostText(Truncate, layout, rows);
    StatementsSnoc([], Truncate, layout, rows);
    issued := [sql];
    ghost var posts: seq<Post> := [Truncate];
    assert outcomes[..0] == [];
    var i := 0;
    while i < |outcomes| && !phase.Finished?
      invariant i <= |outcomes|
      invariant Drive(Truncating, outcomes[..i]) == Trace(posts, phase)
      invariant issued == Statements(posts, layout, rows)
      decreases |outcomes| - i
    {
      assert outcomes[..i + 1] == outcomes[..i] + [outcomes[i]];
      DriveSnoc(Truncating, outcomes[..i], outcomes[i]);
      phase := Next(phase, outcomes[i]);
      if !phase.Finished? {
        sql := PostText(PostOf(phase), layout, rows);
        StatementsSnoc(posts, PostOf(phase), layout, rows);
        issued := issued + [sql];
        posts := posts + [PostOf(phase)];
      }
      i := i + 1;
    }
    if phase.Finished? {
      DriveExtends(Truncating, outcomes[..i], outcomes[i..]);
      assert outcomes[..i] + outcomes[i..] == outcomes;
    } else {
      assert outcomes[..i] == outcomes;
    }
  }

  /** Builds the text of the post the chain is about to issue. */
  method PostText(post: Post, layout: Layout, rows: seq<DataRow>) returns (sql: string)
    requires RowsFit(layout.dims, rows)
    ensures sql == Sql(post, layout, rows)
  {
    var table := layout.tableName;
    match post {
      case Truncate =>
        sql := "TRUNCATE TABLE " + table;
      case Create =>
        sql := BuildCreate(table, layout.dims);
      case InsertNew =>
        var _, sqlValues := SerializeRows(layout.dims, rows, true);
        sql := "INSERT INTO " + table + " VALUES " + DropLast(sqlValues);
      case InsertExisting =>
        var sqlNames, sqlValues := SerializeRows(layout.dims, rows, false);
        sql := "INSERT INTO " + table + " " + sqlNames + " VALUES " + DropLast(sqlValues);
      case Cartodbfy =>
        sql := "SELECT cdb_cartodbfytable('" + layout.account + "', '" + table + "'); UPDATE " + table
          + " SET the_geom=ST_SetSRID(ST_MakePoint(longitude, latitude),4326);";
      case CartodbfyFallback =>
        sql := "SELECT cdb_cartodbfytable('" + table + "'); UPDATE " + table
          + " SET the_geom=ST_SetSRID(ST_MakePoint(longitude, latitude),4326);";
    }
  }
}
