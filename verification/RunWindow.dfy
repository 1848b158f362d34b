/**
 * The console's loaded window: a live head page that is re-polled while older pages are held, under
 * a filter that can be switched at any time.
 *
 * Completeness is claimed from a cursor, a server flag and one remembered row key. The claim is never
 * wrong as long as every older page lands in the window that requested it and the first one of a
 * window resumes below a head page of that window's own filter. The console ensures neither; what a
 * landing must meet instead is stated exactly, with a wrong verdict for each way to miss it.
 */
module RunWindow {
  import opened Text
  import opened Paging

  /** A job row's identity: repo, run, job. */
  type Key = (nat, nat, nat)

  // ---- the pure helpers -----------------------------------------------------------------------------

  datatype WindowShape = WindowShape(statusFiltered: bool, nextCursor: Cursor, seamIntact: bool, serverComplete: bool)

  predicate WindowComplete(w: WindowShape) {
    !w.statusFiltered && w.nextCursor.None? && w.seamIntact && w.serverComplete
  }

  datatype Seam = Seam(pagedPastHead: bool, boundaryKey: Option<Key>)

  const NO_SEAM := Seam(false, None)

  predicate HeadSeamIntact(seam: Seam, headKeys: seq<Key>) {
    !seam.pagedPastHead || (seam.boundaryKey.Some? && seam.boundaryKey.value in headKeys)
  }

  function SeamAfterHop(prev: Seam, headTail: Option<Key>): Seam {
    if prev.pagedPastHead then prev else Seam(true, headTail)
  }

  predicate RepoResponseComplete(statusFiltered: bool) {
    !statusFiltered
  }

  predicate MergedResponseComplete(anyIndexTruncated: bool, visibleRows: nat, returnedRows: nat) {
    !anyIndexTruncated && returnedRows == visibleRows
  }

  function Last(rows: seq<Key>): Option<Key> {
    if rows == [] then None else Some(rows[|rows| - 1])
  }

  // ---- the client -----------------------------------------------------------------------------------

  /**
   * The filter the console is set to: one repository without a status, the same repository with one,
   * or anything else (another repository, or the merged list).
   */
  datatype View = Home | Status(name: nat) | Other(id: nat)

  /** Older-pages cursor: nothing loaded yet, resume here, or exhausted. */
  datatype OlderCursor = Unpaged | Resume(at: nat) | Exhausted

  /**
   * A "Load older" request in flight: what it captured before it was sent, the filter it names, and
   * the filter its cursor was handed out under. The console compares `view` alone; `window` and
   * `origin` are recorded to say what it does not compare.
   */
  datatype Hop = Hop(from: nat, headTail: Option<Key>, view: View, origin: View, window: nat)

  /** `headView` is the filter the head page on screen was polled under. */
  datatype Client = Client(
    head: seq<Key>, headNext: Cursor, headComplete: bool, headView: View,
    older: seq<Key>, olderComplete: bool, cursor: OlderCursor, seam: Seam, inFlight: Option<Hop>)

  /**
   * The repository, its index, the prefix of it the latest unfiltered head poll saw, the filter, and
   * the client. `window` counts filter switches; `base` is where the first older page began (kept for
   * the proof only).
   */
  datatype World = World(repo: nat, index: seq<Key>, snapshot: nat, view: View, client: Client, window: nat, base: nat)

  function NextCursor(c: Client): Cursor {
    match c.cursor
    case Unpaged => c.headNext
    case Resume(at) => Some(at)
    case Exhausted => None
  }

  function Shape(view: View, c: Client): WindowShape {
    WindowShape(view.Status?, NextCursor(c), HeadSeamIntact(c.seam, c.head), c.headComplete && c.olderComplete)
  }

  /** The window the console calls exact. */
  predicate ClaimsExact(w: World) {
    WindowComplete(Shape(w.view, w.client))
  }

  // ---- the steps ------------------------------------------------------------------------------------

  /**
   * A page as the server answers it. `lo` and `matching` say which read it came from: where the walk
   * stopped, and the rows that had the asked-for status at that time (a row's status changes).
   */
  datatype Reply = Reply(rows: seq<Key>, next: Cursor, complete: bool, lo: nat, matching: set<Key>)

  datatype Event =
    | Insert(key: Key)
    | Poll(seen: nat, reply: Reply)
    | StartHop
    | LandHop(reply: Reply)
    | FailHop
    | Switch(view: View)

  ghost predicate Distinct(keys: seq<Key>) {
    forall i, j :: 0 <= i < j < |keys| ==> keys[i] != keys[j]
  }

  ghost predicate OfRepo(repo: nat, index: seq<Key>) {
    forall k :: k in index ==> k.0 == repo
  }

  /** Nothing is on screen before the first poll lands. */
  ghost predicate Init(w: World) {
    && Distinct(w.index) && OfRepo(w.repo, w.index) && w.snapshot == 0 && w.window == 0 && w.base == 0
    && w.client == Client([], None, false, Home, [], true, Unpaged, NO_SEAM, None)
  }

  /** Whatever view shows a row of this repository, the row is in its index and visible. */
  ghost predicate Known(repo: nat, index: seq<Key>, keep: Key -> bool, rows: seq<Key>) {
    forall k :: k in rows && k.0 == repo ==> k in index && keep(k)
  }

  /** With a status, the same index is walked by the same cursor and the rows are filtered afterwards. */
  ghost predicate Answers(view: View, repo: nat, index: seq<Key>, hi: nat, keep: Key -> bool, r: Reply) {
    match view
    case Home => ReadFrom(index, hi, r.lo, keep, r.rows, r.next) && r.complete == RepoResponseComplete(false)
    case Status(_) =>
      && ReadFrom(index, hi, r.lo, k => keep(k) && k in r.matching, r.rows, r.next)
      && r.complete == RepoResponseComplete(true)
    case Other(_) => Known(repo, index, keep, r.rows)
  }

  function Polled(c: Client, view: View, r: Reply): Client {
    c.(head := r.rows, headNext := r.next, headComplete := r.complete, headView := view)
  }

  /** What a hop captures. Its cursor is the head page's until an older page has landed. */
  function NewHop(w: World): Hop
    requires NextCursor(w.client).Some?
  {
    Hop(NextCursor(w.client).value, Last(w.client.head), w.view,
        if w.client.cursor.Unpaged? then w.client.headView else w.view, w.window)
  }

  function Settle(next: Cursor): OlderCursor {
    if next.Some? then Resume(next.value) else Exhausted
  }

  /** A page requested under the filter now set is appended, and the seam advanced. */
  function Landed(c: Client, h: Hop, r: Reply): Client {
    c.(older := c.older + r.rows, olderComplete := c.olderComplete && r.complete,
       cursor := Settle(r.next), seam := SeamAfterHop(c.seam, h.headTail), inFlight := None)
  }

  /**
   * The filter is switched: appended pages, cursor and seam are dropped. The head page stays on
   * screen until the next poll lands, and a request in flight stays in flight.
   */
  function Switched(c: Client): Client {
    c.(older := [], olderComplete := true, cursor := Unpaged, seam := NO_SEAM)
  }

  /** The landing is not discarded: the filter is again, or still, the one the hop names. */
  predicate Accepted(w: World, e: Event) {
    e.LandHop? && w.client.inFlight.Some? && w.client.inFlight.value.view == w.view
  }

  ghost predicate Step(keep: Key -> bool, w: World, e: Event, w': World) {
    var c := w.client;
    match e
    case Insert(key) =>
      key !in w.index && key.0 == w.repo && w' == w.(index := w.index + [key])
    case Poll(seen, reply) =>
      && seen <= |w.index| && Answers(w.view, w.repo, w.index[..seen], seen, keep, reply)
      && w' == w.(client := Polled(c, w.view, reply), snapshot := if w.view.Home? then seen else w.snapshot)
    case StartHop =>
      && c.inFlight.None? && NextCursor(c).Some?
      && w' == w.(client := c.(inFlight := Some(NewHop(w))))
    case LandHop(reply) =>
      && c.inFlight.Some?
      && if c.inFlight.value.view != w.view then w' == w.(client := c.(inFlight := None))
         else
           var h := c.inFlight.value;
           // the store refuses a cursor of another partition, so such a hop can only fail
           && (h.origin.Other? ==> w.view.Other?)
           && Answers(w.view, w.repo, w.index, h.from, keep, reply)
           && w' == w.(client := Landed(c, h, reply), base := if c.cursor.Unpaged? then h.from else w.base)
    case FailHop =>
      c.inFlight.Some? && w' == w.(client := c.(inFlight := None))
    case Switch(view) =>
      view != w.view && w' == w.(view := view, window := w.window + 1, client := Switched(c))
  }

  /** A run: one world more than events, each event leading from one world to the next. */
  ghost predicate IsPath(keep: Key -> bool, ws: seq<World>, es: seq<Event>) {
    |ws| == |es| + 1 && forall i :: 0 <= i < |es| ==> Step(keep, ws[i], es[i], ws[i + 1])
  }

  ghost predicate IsRun(keep: Key -> bool, ws: seq<World>, es: seq<Event>) {
    IsPath(keep, ws, es) && Init(ws[0])
  }

  // ---- which landings are safe ------------------------------------------------------------------------

  /** If `tail` is a row of the repository, no visible row lies between position `at` and it. */
  ghost predicate NothingSkipped(repo: nat, index: seq<Key>, keep: Key -> bool, at: nat, tail: Option<Key>) {
    tail.Some? && tail.value.0 == repo ==>
      exists p :: 0 <= p < |index| && index[p] == tail.value && forall q :: at <= q < p ==> !keep(index[q])
  }

  /** The first older page of an unfiltered window continues the head row remembered as its boundary. */
  ghost predicate Harmless(keep: Key -> bool, w: World, e: Event) {
    Accepted(w, e) && w.view.Home? && w.client.cursor.Unpaged? ==>
      NothingSkipped(w.repo, w.index, keep, w.client.inFlight.value.from, w.client.inFlight.value.headTail)
  }

  ghost predicate AllHarmless(keep: Key -> bool, ws: seq<World>, es: seq<Event>) {
    |ws| == |es| + 1 && forall i :: 0 <= i < |es| ==> Harmless(keep, ws[i], es[i])
  }

  /** The page lands in the window that requested it, and its cursor is of that window's own filter. */
  predicate LandsAtHome(w: World, e: Event) {
    Accepted(w, e) ==> w.client.inFlight.value.window == w.window && w.client.inFlight.value.origin == w.view
  }

  /** The window holds every visible row the index had at the latest unfiltered poll, and nothing else. */
  ghost predicate HoldsEverything(w: World, keep: Key -> bool) {
    var loaded := w.client.head + w.client.older;
    && (forall q :: 0 <= q < w.snapshot && q < |w.index| && keep(w.index[q]) ==> w.index[q] in loaded)
    && (forall k :: k in loaded ==> k in w.index && keep(k))
  }

  /** The verdict on the unfiltered repository, once the page on screen is this repository's. */
  ghost predicate VerdictIsRight(keep: Key -> bool, w: World) {
    w.view.Home? && !w.client.headView.Other? && ClaimsExact(w) ==> HoldsEverything(w, keep)
  }

  // ---- the invariant --------------------------------------------------------------------------------

  /** Every visible row of `[lo, hi)` is in `rows`, and `rows` holds only visible rows of the index. */
  ghost predicate Covers(index: seq<Key>, keep: Key -> bool, lo: nat, hi: nat, rows: seq<Key>) {
    && lo <= hi <= |index|
    && (forall q :: lo <= q < hi && keep(index[q]) ==> index[q] in rows)
    && (forall k :: k in rows ==> k in index && keep(k))
  }

  ghost predicate HeadFrom(w: World, keep: Key -> bool, lo: nat) {
    && Covers(w.index, keep, lo, w.snapshot, w.client.head)
    && (w.client.headNext.None? ==> lo == 0)
    && (w.client.headNext.Some? ==> w.client.headNext.value == lo)
    && (forall k :: k in w.client.head ==> exists q :: lo <= q < w.snapshot && w.index[q] == k)
    && NothingSkipped(w.repo, w.index, keep, lo, Last(w.client.head))
  }

  /** A page polled under a status never claims completeness. */
  ghost predicate HeadInv(w: World, keep: Key -> bool) {
    && Known(w.repo, w.index, keep, w.client.head)
    && (w.client.headView.Home? ==> exists lo :: HeadFrom(w, keep, lo))
    && (w.client.headView.Status? ==> !w.client.headComplete)
  }

  ghost predicate OlderInv(w: World, keep: Key -> bool) {
    var c := w.client;
    match c.cursor
    case Unpaged => c.older == [] && c.seam == NO_SEAM && c.olderComplete
    case Resume(at) => w.view.Home? ==> PagedInv(w, keep, at)
    case Exhausted => w.view.Home? ==> PagedInv(w, keep, 0)
  }

  ghost predicate PagedInv(w: World, keep: Key -> bool, lo: nat) {
    && w.client.seam.pagedPastHead && w.client.olderComplete
    && Covers(w.index, keep, lo, w.base, w.client.older)
    && NothingSkipped(w.repo, w.index, keep, w.base, w.client.seam.boundaryKey)
  }

  /** While a hop is in flight its window is not paged by another, and the row it remembers is known. */
  ghost predicate HopInv(w: World, keep: Key -> bool) {
    var c := w.client;
    c.inFlight.Some? ==>
      var h := c.inFlight.value;
      && h.window <= w.window
      && (h.window == w.window ==> h.view == w.view)
      && (!c.cursor.Unpaged? ==> h.window == w.window && c.cursor == Resume(h.from))
      && (h.headTail.Some? ==> Known(w.repo, w.index, keep, [h.headTail.value]))
      && (h.view.Home? && h.window == w.window && h.origin.Home? && c.cursor.Unpaged? ==>
            NothingSkipped(w.repo, w.index, keep, h.from, h.headTail))
  }

  ghost predicate Inv(w: World, keep: Key -> bool) {
    Distinct(w.index) && OfRepo(w.repo, w.index) && HeadInv(w, keep) && OlderInv(w, keep) && HopInv(w, keep)
  }

  // ---- reads cover what they walked -------------------------------------------------------------------

  lemma ReadCovers(index: seq<Key>, keep: Key -> bool, hi: nat, lo: nat, rows: seq<Key>, next: Cursor)
    requires ReadFrom(index, hi, lo, keep, rows, next)
    ensures Covers(index, keep, lo, hi, rows)
    ensures forall k :: k in rows ==> exists q :: lo <= q < hi && index[q] == k
  {
    var part := index[lo..hi];
    forall k ensures k in rows <==> k in part && keep(k) {
      VisibleMember(part, keep, k);
    }
    forall q | lo <= q < hi && keep(index[q]) ensures index[q] in rows {
      assert part[q - lo] == index[q];
    }
    forall k | k in rows ensures exists q :: lo <= q < hi && index[q] == k {
      var i :| 0 <= i < |part| && part[i] == k;
      assert index[lo + i] == k;
    }
  }

  /** The last row of a read is its oldest visible one. */
  lemma {:induction false} LastIsOldest(repo: nat, index: seq<Key>, keep: Key -> bool, lo: nat, hi: nat)
    requires lo <= hi <= |index|
    ensures NothingSkipped(repo, index, keep, lo, Last(Visible(index[lo..hi], keep)))
    decreases hi - lo
  {
    if lo < hi {
      var first := index[lo..lo + 1];
      assert index[lo..hi] == first + index[lo + 1..hi];
      VisibleConcat(first, index[lo + 1..hi], keep);
      assert Visible(first, keep) == if keep(index[lo]) then [index[lo]] else [] by {
        assert first[..0] == [] && first[0] == index[lo];
        assert Visible(first[..0], keep) == [];
      }
      LastIsOldest(repo, index, keep, lo + 1, hi);
      if keep(index[lo]) {
        assert index[lo] == Last(Visible(index[lo..hi], keep)).value;
      } else {
        assert Visible(index[lo..hi], keep) == Visible(index[lo + 1..hi], keep);
        var tail := Last(Visible(index[lo..hi], keep));
        if tail.Some? && tail.value.0 == repo {
          var p :| 0 <= p < |index| && index[p] == tail.value && forall q :: lo + 1 <= q < p ==> !keep(index[q]);
          assert forall q :: lo <= q < p ==> !keep(index[q]);
        }
      }
    }
  }


  // ---- preservation -----------------------------------------------------------------------------------

  /** Growth at the newest end disturbs no position. */
  lemma SkippedGrows(repo: nat, index: seq<Key>, index': seq<Key>, keep: Key -> bool, at: nat, tail: Option<Key>)
    requires index <= index' && NothingSkipped(repo, index, keep, at, tail)
    ensures NothingSkipped(repo, index', keep, at, tail)
  {
    if tail.Some? && tail.value.0 == repo {
      var p :| 0 <= p < |index| && index[p] == tail.value && forall q :: at <= q < p ==> !keep(index[q]);
      assert index'[p] == tail.value;
    }
  }

  lemma InsertKeeps(keep: Key -> bool, w: World, key: Key)
    requires Inv(w, keep) && key !in w.index && key.0 == w.repo
    ensures Inv(w.(index := w.index + [key]), keep)
  {
    var w' := w.(index := w.index + [key]);
    if w.client.headView.Home? {
      var lo :| HeadFrom(w, keep, lo);
      SkippedGrows(w.repo, w.index, w'.index, keep, lo, Last(w.client.head));
      assert HeadFrom(w', keep, lo);
    }
    if NothingSkipped(w.repo, w.index, keep, w.base, w.client.seam.boundaryKey) {
      SkippedGrows(w.repo, w.index, w'.index, keep, w.base, w.client.seam.boundaryKey);
    }
    if w.client.inFlight.Some? {
      var h := w.client.inFlight.value;
      if NothingSkipped(w.repo, w.index, keep, h.from, h.headTail) {
        SkippedGrows(w.repo, w.index, w'.index, keep, h.from, h.headTail);
      }
    }
  }

  /** A head page answered under the unfiltered view. */
  lemma HomePollKeeps(keep: Key -> bool, w: World, seen: nat, reply: Reply, w': World)
    requires Inv(w, keep) && Step(keep, w, Poll(seen, reply), w') && w.view.Home?
    ensures Inv(w', keep)
  {
    ReadCovers(w.index[..seen], keep, seen, reply.lo, reply.rows, reply.next);
    LastIsOldest(w.repo, w.index[..seen], keep, reply.lo, seen);
    SkippedGrows(w.repo, w.index[..seen], w.index, keep, reply.lo, Last(reply.rows));
    assert HeadFrom(w', keep, reply.lo);
  }

  lemma OtherPollKeeps(keep: Key -> bool, w: World, seen: nat, reply: Reply, w': World)
    requires Inv(w, keep) && Step(keep, w, Poll(seen, reply), w') && !w.view.Home?
    ensures Inv(w', keep)
  {
    if w.view.Status? {
      ReadCovers(w.index[..seen], k => keep(k) && k in reply.matching, seen, reply.lo, reply.rows, reply.next);
    }
  }

  lemma SameHead(keep: Key -> bool, w: World, w': World)
    requires HeadInv(w, keep) && w'.repo == w.repo && w'.index == w.index && w'.snapshot == w.snapshot
    requires w'.client.head == w.client.head && w'.client.headNext == w.client.headNext
    requires w'.client.headComplete == w.client.headComplete && w'.client.headView == w.client.headView
    ensures HeadInv(w', keep)
  {
    if w.client.headView.Home? {
      var lo :| HeadFrom(w, keep, lo);
      assert HeadFrom(w', keep, lo);
    }
  }

  lemma StartHopKeeps(keep: Key -> bool, w: World, w': World)
    requires Inv(w, keep) && Step(keep, w, StartHop, w')
    ensures Inv(w', keep)
  {
    SameHead(keep, w, w');
    var c := w.client;
    if c.headView.Home? {
      var lo :| HeadFrom(w, keep, lo);
      assert c.cursor.Unpaged? ==> NextCursor(c).value == lo;
    }
  }

  lemma LandHopKeeps(keep: Key -> bool, w: World, reply: Reply, w': World)
    requires Inv(w, keep) && Step(keep, w, LandHop(reply), w') && Harmless(keep, w, LandHop(reply))
    ensures Inv(w', keep)
  {
    SameHead(keep, w, w');
    if Accepted(w, LandHop(reply)) && w.view.Home? {
      ReadCovers(w.index, keep, w.client.inFlight.value.from, reply.lo, reply.rows, reply.next);
      assert PagedInv(w', keep, reply.lo);
    }
  }

  lemma StepKeeps(keep: Key -> bool, w: World, e: Event, w': World)
    requires Inv(w, keep) && Step(keep, w, e, w') && Harmless(keep, w, e)
    ensures Inv(w', keep)
  {
    match e {
      case Insert(key) => InsertKeeps(keep, w, key);
      case Poll(seen, reply) =>
        if w.view.Home? {
          HomePollKeeps(keep, w, seen, reply, w');
        } else {
          OtherPollKeeps(keep, w, seen, reply, w');
        }
      case StartHop => StartHopKeeps(keep, w, w');
      case LandHop(reply) => LandHopKeeps(keep, w, reply, w');
      case FailHop => SameHead(keep, w, w');
      case Switch(view) => SameHead(keep, w, w');
    }
  }

  lemma InitInv(keep: Key -> bool, w: World)
    requires Init(w)
    ensures Inv(w, keep)
  {
    assert HeadFrom(w, keep, 0);
  }

  lemma {:induction false} PathInv(keep: Key -> bool, ws: seq<World>, es: seq<Event>, n: nat)
    requires IsPath(keep, ws, es) && Inv(ws[0], keep) && AllHarmless(keep, ws, es) && n < |ws|
    ensures Inv(ws[n], keep)
  {
    if n > 0 {
      PathInv(keep, ws, es, n - 1);
      StepKeeps(keep, ws[n - 1], es[n - 1], ws[n]);
    }
  }

  // ---- the verdict ----------------------------------------------------------------------------------------

  lemma IntactSeamMeets(w: World, keep: Key -> bool, top: nat)
    requires Inv(w, keep) && HeadFrom(w, keep, top) && w.view.Home? && !w.client.cursor.Unpaged?
    requires HeadSeamIntact(w.client.seam, w.client.head)
    ensures forall q :: w.base <= q < top && q < |w.index| ==> !keep(w.index[q])
  {
    var b := w.client.seam.boundaryKey.value;
    var p :| 0 <= p < |w.index| && w.index[p] == b && forall q :: w.base <= q < p ==> !keep(w.index[q]);
    var r :| top <= r < w.snapshot && w.index[r] == b;
    assert p == r;
  }

  lemma ExactIsComplete(w: World, keep: Key -> bool)
    requires Inv(w, keep)
    ensures VerdictIsRight(keep, w)
  {
    if w.view.Home? && w.client.headView.Home? && ClaimsExact(w) {
      var c := w.client;
      var top :| HeadFrom(w, keep, top);
      if !c.cursor.Unpaged? {
        IntactSeamMeets(w, keep, top);
        assert PagedInv(w, keep, 0);
      }
      forall q | 0 <= q < w.snapshot && keep(w.index[q]) ensures w.index[q] in c.head + c.older {
        if q >= top {
          assert w.index[q] in c.head;
        } else {
          assert w.index[q] in c.older;
        }
      }
    }
  }

  /**
   * The verdict is never wrong: in every run of inserts, polls, hops and filter switches whose
   * landings are harmless, whenever the console calls the unfiltered window exact, head and older
   * rows together hold every visible row of the index as of its latest poll, and no other row.
   */
  lemma ExactIsNeverWrong(keep: Key -> bool, ws: seq<World>, es: seq<Event>, n: nat)
    requires IsRun(keep, ws, es) && AllHarmless(keep, ws, es) && n < |ws|
    ensures VerdictIsRight(keep, ws[n])
  {
    InitInv(keep, ws[0]);
    PathInv(keep, ws, es, n);
    ExactIsComplete(ws[n], keep);
  }

  lemma {:induction false} HomeIsHarmless(keep: Key -> bool, ws: seq<World>, es: seq<Event>, n: nat)
    requires IsPath(keep, ws, es) && Inv(ws[0], keep) && n < |ws|
    requires forall i :: 0 <= i < n ==> LandsAtHome(ws[i], es[i])
    ensures Inv(ws[n], keep) && forall i :: 0 <= i < n ==> Harmless(keep, ws[i], es[i])
  {
    if n > 0 {
      HomeIsHarmless(keep, ws, es, n - 1);
      StepKeeps(keep, ws[n - 1], es[n - 1], ws[n]);
    }
  }

  /**
   * A landing is harmless when it comes in the window that requested it, following that window's own
   * cursor. So the verdict is right in every run whose landings all do.
   */
  lemma OwnWindowsAreExact(keep: Key -> bool, ws: seq<World>, es: seq<Event>)
    requires IsRun(keep, ws, es) && forall i :: 0 <= i < |es| ==> LandsAtHome(ws[i], es[i])
    ensures AllHarmless(keep, ws, es) && forall n :: 0 <= n < |ws| ==> VerdictIsRight(keep, ws[n])
  {
    InitInv(keep, ws[0]);
    HomeIsHarmless(keep, ws, es, |es|);
    forall n | 0 <= n < |ws| ensures VerdictIsRight(keep, ws[n]) {
      ExactIsNeverWrong(keep, ws, es, n);
    }
  }

  /**
   * The merged view claims completeness exactly when no index page was cut and no visible row sliced
   * off; and then it holds every visible row of every index.
   */
  lemma MergedVerdict(indexes: seq<seq<Key>>, pages: seq<seq<Key>>, truncated: seq<bool>, keep: Key -> bool, limit: nat, visible: seq<Key>)
    requires |indexes| == |pages| == |truncated|
    requires forall i :: 0 <= i < |pages| && !truncated[i] ==> forall k :: k in indexes[i] ==> k in pages[i]
    requires forall k :: k in visible <==> keep(k) && exists i :: 0 <= i < |pages| && k in pages[i]
    ensures MergedResponseComplete(true in truncated, |visible|, if |visible| > limit then limit else |visible|) <==>
            (forall i :: 0 <= i < |truncated| ==> !truncated[i]) && |visible| <= limit
    ensures MergedResponseComplete(true in truncated, |visible|, if |visible| > limit then limit else |visible|) ==>
              forall i, k :: 0 <= i < |indexes| && k in indexes[i] && keep(k) ==>
              k in visible[..if |visible| > limit then limit else |visible|]
  {
    assert visible[..|visible|] == visible;
    assert forall i :: 0 <= i < |truncated| && truncated[i] ==> true in truncated;
    if MergedResponseComplete(true in truncated, |visible|, if |visible| > limit then limit else |visible|) {
      forall i, k | 0 <= i < |indexes| && k in indexes[i] && keep(k) ensures k in visible {
        assert !truncated[i];
      }
    }
  }

  // ---- a landing that is not harmless ------------------------------------------------------------------------

  /** However the run goes on, as long as later pages land at home, no wrong verdict is shown. */
  ghost predicate StaysRight(keep: Key -> bool, w: World) {
    forall ws, es :: GoesOnAtHome(keep, w, ws, es) ==> VerdictIsRight(keep, ws[|es|])
  }

  ghost predicate GoesOnAtHome(keep: Key -> bool, w: World, ws: seq<World>, es: seq<Event>) {
    IsPath(keep, ws, es) && ws[0] == w && forall i :: 0 <= i < |es| ==> LandsAtHome(ws[i], es[i])
  }

  /**
   * The condition is exact. After any run of harmless landings and one more step, the verdict stays
   * right however the run goes on if and only if that step, too, is no landing that skips a visible
   * row between the resume point and the remembered boundary.
   */
  lemma LandingIsSafeIff(keep: Key -> bool, ws: seq<World>, es: seq<Event>, e: Event, w': World)
    requires IsRun(keep, ws, es) && AllHarmless(keep, ws, es) && Step(keep, ws[|es|], e, w')
    ensures StaysRight(keep, w') <==> Harmless(keep, ws[|es|], e)
  {
    var w := ws[|es|];
    InitInv(keep, ws[0]);
    PathInv(keep, ws, es, |es|);
    if Harmless(keep, w, e) {
      StepKeeps(keep, w, e, w');
      forall ws', es' | GoesOnAtHome(keep, w', ws', es') ensures VerdictIsRight(keep, ws'[|es'|]) {
        HomeIsHarmless(keep, ws', es', |es'|);
        ExactIsComplete(ws'[|es'|], keep);
      }
    } else {
      var tail := w.client.inFlight.value.headTail.value;
      assert tail in [tail];
      var p :| 0 <= p < |w.index| && w.index[p] == tail;
      var q :| w.client.inFlight.value.from <= q < p && keep(w.index[q]);
      var ws', es' := SkippedRowMisleads(keep, w, e, w', p, q);
      assert !VerdictIsRight(keep, ws'[|es'|]);
    }
  }

  /** Everything loaded misses the visible row at `q`, and nothing on screen tells. */
  ghost predicate Holed(w: World, keep: Key -> bool, q: nat) {
    var c := w.client;
    && w.view.Home? && c.headView.Home? && c.headComplete && c.olderComplete && c.inFlight.None?
    && q < |w.index| == w.snapshot && keep(w.index[q]) && w.index[q] !in c.head + c.older
    && HeadSeamIntact(c.seam, c.head) && c.seam.pagedPastHead
    && (c.cursor.Resume? ==> c.cursor.at <= q) && !c.cursor.Unpaged?
  }

  lemma HoledMisleads(w: World, keep: Key -> bool, q: nat)
    requires Holed(w, keep, q) && w.client.cursor.Exhausted?
    ensures !VerdictIsRight(keep, w)
  {
    assert ClaimsExact(w);
  }

  lemma PageMisses(index: seq<Key>, keep: Key -> bool, lo: nat, hi: nat, q: nat)
    requires Distinct(index) && lo <= hi <= |index| && q < |index| && !(lo <= q < hi)
    ensures index[q] !in Visible(index[lo..hi], keep)
  {
    VisibleMember(index[lo..hi], keep, index[q]);
  }

  /** The rest of the older pages are walked in one hop. */
  lemma WalkToTheEnd(w: World, keep: Key -> bool, q: nat) returns (asked: World, r: Reply, walked: World)
    requires Holed(w, keep, q) && Distinct(w.index) && w.client.cursor.Resume?
    ensures Step(keep, w, StartHop, asked) && Step(keep, asked, LandHop(r), walked) && LandsAtHome(asked, LandHop(r))
    ensures Holed(walked, keep, q) && walked.client.cursor.Exhausted?
  {
    var at := w.client.cursor.at;
    r := Reply(Visible(w.index[0..at], keep), None, true, 0, {});
    PageMisses(w.index, keep, 0, at, q);
    asked := w.(client := w.client.(inFlight := Some(NewHop(w))));
    walked := asked.(client := Landed(asked.client, NewHop(w), r));
  }

  /** A head page is polled that ends at the boundary row. */
  lemma PollToBoundary(w: World, keep: Key -> bool, p: nat, q: nat) returns (r: Reply, polled: World)
    requires w.view.Home? && Distinct(w.index) && q < p < |w.index| && keep(w.index[p]) && keep(w.index[q])
    requires w.client.seam == Seam(true, Some(w.index[p])) && w.client.olderComplete && w.client.inFlight.None?
    requires w.index[q] !in w.client.older && !w.client.cursor.Unpaged?
    requires w.client.cursor.Resume? ==> w.client.cursor.at <= q
    ensures Step(keep, w, Poll(|w.index|, r), polled) && Holed(polled, keep, q) && polled.index == w.index
  {
    var n := |w.index|;
    assert w.index[..n] == w.index && w.index[p] == w.index[p..n][0];
    r := Reply(Visible(w.index[p..n], keep), Some(p), true, p, {});
    PageMisses(w.index, keep, p, n, q);
    VisibleMember(w.index[p..n], keep, w.index[p]);
    polled := w.(client := Polled(w.client, Home, r), snapshot := n);
  }

  lemma Follow(keep: Key -> bool, w: World, ws: seq<World>, es: seq<Event>, e: Event, w': World)
    requires GoesOnAtHome(keep, w, ws, es) && Step(keep, ws[|es|], e, w') && LandsAtHome(ws[|es|], e)
    ensures GoesOnAtHome(keep, w, ws + [w'], es + [e]) && (ws + [w'])[|es + [e]|] == w'
  {
  }

  lemma Stay(keep: Key -> bool, w: World)
    ensures GoesOnAtHome(keep, w, [w], [])
  {
  }

  /**
   * The row at `q` was skipped: poll a head page that ends at the boundary row, walk the older pages
   * to the end, and the window reads as exact without it.
   */
  lemma SkippedRowMisleads(keep: Key -> bool, w: World, e: Event, w': World, p: nat, q: nat)
    returns (ws: seq<World>, es: seq<Event>)
    requires Distinct(w.index) && OlderInv(w, keep)
    requires Step(keep, w, e, w') && Accepted(w, e) && w.view.Home? && w.client.cursor.Unpaged?
    requires w.client.inFlight.value.from <= q < p < |w.index|
    requires w.client.inFlight.value.headTail == Some(w.index[p]) && keep(w.index[p]) && keep(w.index[q])
    ensures GoesOnAtHome(keep, w', ws, es) && !VerdictIsRight(keep, ws[|es|])
  {
    PageMisses(w.index, keep, e.reply.lo, w.client.inFlight.value.from, q);
    var head, polled := PollToBoundary(w', keep, p, q);
    Stay(keep, w');
    Follow(keep, w', [w'], [], Poll(|w.index|, head), polled);
    ws, es := [w'] + [polled], [] + [Poll(|w.index|, head)];
    if polled.client.cursor.Resume? {
      var asked, rest, walked := WalkToTheEnd(polled, keep, q);
      Follow(keep, w', ws, es, StartHop, asked);
      ws, es := ws + [asked], es + [StartHop];
      Follow(keep, w', ws, es, LandHop(rest), walked);
      ws, es := ws + [walked], es + [LandHop(rest)];
      HoledMisleads(walked, keep, q);
    } else {
      HoledMisleads(polled, keep, q);
    }
  }

  lemma ReadOne(index: seq<Key>, keep: Key -> bool, lo: nat, next: Cursor)
    requires lo < |index| && keep(index[lo]) && next == if lo == 0 then None else Some(lo)
    ensures ReadFrom(index, lo + 1, lo, keep, [index[lo]], next)
  {
    var one := index[lo..lo + 1];
    assert one == [index[lo]] && one[..0] == [];
    assert Visible(one[..0], keep) == [];
  }

  lemma ReadUpper(b: Key, c: Key, keep: Key -> bool)
    requires keep(c) && !keep(b)
    ensures Visible([b, c], keep) == [c]
  {
    assert [b, c][..1] == [b] && [b][..0] == [];
    assert Visible([b][..0], keep) == [];
    assert Visible([b], keep) == [];
  }

  const START := Client([], None, false, Home, [], true, Unpaged, NO_SEAM, None)

  /** A run in which every landing so far came home. */
  ghost predicate HomeRun(keep: Key -> bool, ws: seq<World>, es: seq<Event>) {
    |ws| > 0 && Init(ws[0]) && GoesOnAtHome(keep, ws[0], ws, es)
  }

  /**
   * One way to miss it: page past a one-row head page, request the next page, switch the status on
   * and off, and let that request land. The console calls the window exact with `b` missing.
   */
  lemma AbandonedHopCanMislead(keep: Key -> bool, a: Key, b: Key, c: Key)
    returns (ws: seq<World>, es: seq<Event>, e: Event, w': World)
    requires a != b && b != c && a != c && a.0 == b.0 == c.0 && keep(a) && keep(b) && keep(c)
    ensures HomeRun(keep, ws, es) && Step(keep, ws[|es|], e, w') && !VerdictIsRight(keep, w')
    ensures Accepted(ws[|es|], e) && ws[|es|].client.inFlight.value.window != ws[|es|].window
  {
    var index, repo := [a, b, c], a.0;
    var polled := START.(head := [c], headNext := Some(2), headComplete := true);
    var paged := polled.(older := [b], cursor := Resume(1), seam := Seam(true, Some(c)));
    var waits := Some(Hop(1, Some(c), Home, Home, 0));
    var w1, w6 := World(repo, index, 3, Home, polled, 0, 0), World(repo, index, 3, Home, polled.(inFlight := waits), 2, 2);
    ws, es := PageOnce(keep, a, b, c, World(repo, index, 0, Home, START, 0, 0), w1, World(repo, index, 3, Home, paged, 0, 2));
    var w4 := World(repo, index, 3, Home, paged.(inFlight := waits), 0, 2);
    Follow(keep, ws[0], ws, es, StartHop, w4);
    ws, es := ws + [w4], es + [StartHop];
    ws, es := SwitchThere(keep, ws[0], ws, es, w4, w6);
    ReadOne(index, keep, 0, None);
    e := LandHop(Reply([a], None, true, 0, {}));
    w' := World(repo, index, 3, Home, polled.(older := [a], cursor := Exhausted, seam := Seam(true, Some(c))), 2, 1);
    assert index[1] == b && b !in w'.client.head + w'.client.older;
  }

  /** One head page of one row and one older page of one row. */
  lemma PageOnce(keep: Key -> bool, a: Key, b: Key, c: Key, w0: World, w1: World, w3: World)
    returns (ws: seq<World>, es: seq<Event>)
    requires a != b && b != c && a != c && a.0 == b.0 == c.0 && keep(b) && keep(c)
    requires w0 == World(a.0, [a, b, c], 0, Home, START, 0, 0)
    requires w1 == w0.(snapshot := 3, client := START.(head := [c], headNext := Some(2), headComplete := true))
    requires w3 == w1.(base := 2, client := w1.client.(older := [b], cursor := Resume(1), seam := Seam(true, Some(c))))
    ensures HomeRun(keep, ws, es) && ws[|es|] == w3
  {
    assert [a, b, c][..3] == [a, b, c];
    ReadOne(w0.index, keep, 2, Some(2));
    ReadOne(w0.index, keep, 1, Some(1));
    var w2 := w1.(client := w1.client.(inFlight := Some(Hop(2, Some(c), Home, Home, 0))));
    var poll, land := Poll(3, Reply([c], Some(2), true, 2, {})), LandHop(Reply([b], Some(1), true, 1, {}));
    Stay(keep, w0);
    Follow(keep, w0, [w0], [], poll, w1);
    Follow(keep, w0, [w0] + [w1], [] + [poll], StartHop, w2);
    Follow(keep, w0, [w0] + [w1] + [w2], [] + [poll] + [StartHop], land, w3);
    ws, es := [w0] + [w1] + [w2] + [w3], [] + [poll] + [StartHop] + [land];
  }

  /** Some status is chosen and cleared. */
  lemma SwitchThere(keep: Key -> bool, w0: World, ws: seq<World>, es: seq<Event>, w: World, w': World)
    returns (ws': seq<World>, es': seq<Event>)
    requires GoesOnAtHome(keep, w0, ws, es) && ws[|es|] == w && w.view.Home?
    requires w' == w.(window := w.window + 2, client := Switched(w.client))
    ensures GoesOnAtHome(keep, w0, ws', es') && ws'[|es'|] == w'
  {
    var away := w.(view := Status(0), window := w.window + 1, client := Switched(w.client));
    Follow(keep, w0, ws, es, Switch(Status(0)), away);
    Follow(keep, w0, ws + [away], es + [Switch(Status(0))], Switch(Home), w');
    ws', es' := ws + [away] + [w'], es + [Switch(Status(0))] + [Switch(Home)];
  }

  /**
   * The other way: under a status, the head page finds only `c` and stops above `a`. Clear the status
   * and load older before the unfiltered head page lands. The hop lands in the very window that
   * requested it, and the run can go on to call the window exact with `b` missing.
   */
  lemma StaleHeadCanMislead(keep: Key -> bool, a: Key, b: Key, c: Key)
    returns (ws: seq<World>, es: seq<Event>, e: Event, w': World)
    requires a != b && b != c && a != c && a.0 == b.0 == c.0 && keep(a) && keep(b) && keep(c)
    ensures HomeRun(keep, ws, es) && Step(keep, ws[|es|], e, w') && !StaysRight(keep, w')
    ensures Accepted(ws[|es|], e) && ws[|es|].client.inFlight.value.window == ws[|es|].window
  {
    var w3: World;
    ws, es, w3 := AskBelowStaleHead(keep, a, b, c);
    e := LandHop(Reply([a], None, true, 0, {}));
    w' := w3.(client := Landed(w3.client, w3.client.inFlight.value, e.reply), base := 1);
    ReadOne(w3.index, keep, 0, None);
    OwnWindowsAreExact(keep, ws, es);
    assert w3.index[1] == b && w3.index[2] == c;
    LandingIsSafeIff(keep, ws, es, e, w');
  }

  lemma AskBelowStaleHead(keep: Key -> bool, a: Key, b: Key, c: Key)
    returns (ws: seq<World>, es: seq<Event>, w3: World)
    requires a != b && b != c && a != c && a.0 == b.0 == c.0 && keep(c)
    ensures HomeRun(keep, ws, es) && ws[|es|] == w3
    ensures w3 == World(a.0, [a, b, c], 0, Home, START.(head := [c], headNext := Some(1), headView := Status(0),
                        inFlight := Some(Hop(1, Some(c), Home, Status(0), 1))), 1, 0)
  {
    var index := [a, b, c];
    var w0 := World(a.0, index, 0, Status(0), START, 0, 0);
    var w1 := w0.(client := START.(head := [c], headNext := Some(1), headView := Status(0)));
    var w2 := w1.(view := Home, window := 1);
    w3 := w2.(client := w2.client.(inFlight := Some(Hop(1, Some(c), Home, Status(0), 1))));
    var poll := Poll(3, Reply([c], Some(1), false, 1, {c}));
    assert index[..3] == index && index[1..3] == [b, c];
    ReadUpper(b, c, k => keep(k) && k in poll.reply.matching);
    Stay(keep, w0);
    Follow(keep, w0, [w0], [], poll, w1);
    Follow(keep, w0, [w0] + [w1], [] + [poll], Switch(Home), w2);
    Follow(keep, w0, [w0] + [w1] + [w2], [] + [poll] + [Switch(Home)], StartHop, w3);
    ws, es := [w0] + [w1] + [w2] + [w3], [] + [poll] + [Switch(Home)] + [StartHop];
  }

  /**
   * Why the verdict speaks of a page on screen that is this repository's: after a switch from a
   * repository whose one page is complete, that page stays on screen and is called exact.
   */
  lemma PreviousPageStaysExact(keep: Key -> bool, repo: nat, foreign: Key)
    returns (ws: seq<World>, es: seq<Event>)
    requires foreign.0 != repo
    ensures IsRun(keep, ws, es) && |es| == 2 && AllHarmless(keep, ws, es)
    ensures ws[2].view.Home? && ws[2].repo == repo && ClaimsExact(ws[2]) && !HoldsEverything(ws[2], keep)
  {
    var page := Reply([foreign], None, true, 0, {});
    var shown := START.(head := [foreign], headComplete := true, headView := Other(0));
    es := [Poll(0, page), Switch(Home)];
    ws := [World(repo, [], 0, Other(0), START, 0, 0), World(repo, [], 0, Other(0), shown, 0, 0), World(repo, [], 0, Home, shown, 1, 0)];
    assert foreign in shown.head + shown.older;
  }
}
