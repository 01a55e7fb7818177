/*******************************************************************************
 *  The interaction logic of one prompt card: truncation of the prompt text,
 *  the "copied" feedback with its reset timers, the full-prompt modal, and the
 *  identity checks that gate the owner controls and pick the profile route.
 *******************************************************************************/

module PromptCard {

  datatype Option<+T> = None | Some(value: T)

  /* ---------------------------------------------------------------------------
   * Records the card is given (read-only to the card)
   * ------------------------------------------------------------------------- */

  datatype User = User(id: string, username: string, email: string)

  datatype Post = Post(prompt: string, tag: string, creator: User)

  /* ---------------------------------------------------------------------------
   * JavaScript string primitives used by the truncation
   * ------------------------------------------------------------------------- */

  function Max(a: int, b: int): (m: int)
    ensures m >= a && m >= b && (m == a || m == b)
  {
    if a < b then b else a
  }

  function Min(a: int, b: int): (m: int)
    ensures m <= a && m <= b && (m == a || m == b)
  {
    if a < b then a else b
  }

  /** `x` forced into `[lo, hi]`. */
  function Clamp(x: int, lo: int, hi: int): (r: int)
    requires lo <= hi
    ensures lo <= r <= hi
    ensures lo <= x <= hi ==> r == x
  {
    if x < lo then lo else if x > hi then hi else x
  }

  /** The largest index `<= k` holding `c`, or -1 when there is none. */
  function LastIndexAtOrBefore(text: string, c: char, k: int): (r: int)
    requires -1 <= k < |text|
    ensures -1 <= r <= k
    ensures r >= 0 ==> text[r] == c
    ensures forall j :: r < j <= k ==> text[j] != c
    decreases k + 1
  {
    if k < 0 then -1
    else if text[k] == c then k
    else LastIndexAtOrBefore(text, c, k - 1)
  }

  /**
   * `text.lastIndexOf(c, position)` for a one-character search string: the
   * position is clamped to `[0, |text|]` and the search runs backwards from
   * the last index where the character still fits.
   */
  function LastIndexOf(text: string, c: char, position: int): (r: int)
    ensures -1 <= r < |text|
    ensures r >= 0 ==> text[r] == c && r <= Max(position, 0)
    ensures forall j :: r < j < |text| && j <= Max(position, 0) ==> text[j] != c
  {
    LastIndexAtOrBefore(text, c, Min(Clamp(position, 0, |text|), |text| - 1))
  }

  /**
   * `s.substring(start, end)`: both indices are clamped to `[0, |s|]` and
   * swapped when they come in the wrong order.
   */
  function Substring(s: string, start: int, end: int): (r: string)
    ensures 0 <= start <= end <= |s| ==> r == s[start..end]
    ensures end <= 0 ==> r == s[..Clamp(start, 0, |s|)]
    ensures var a, b := Clamp(start, 0, |s|), Clamp(end, 0, |s|);
      r == s[Min(a, b)..Max(a, b)]
  {
    var a, b := Clamp(start, 0, |s|), Clamp(end, 0, |s|);
    if a <= b then s[a..b] else s[b..a]
  }

  /* ---------------------------------------------------------------------------
   * Truncation engine
   * ------------------------------------------------------------------------- */

  /** The marker appended to a cut prompt. */
  const Ellipsis: string := " ..."

  /** The limit the compact card passes to `Truncate`. */
  const CompactLimit: int := 100

  /** The index the over-long text is cut at (JS clamps -1 to 0). */
  function CutIndex(text: string, limit: int): (i: nat)
    ensures i < |text| || |text| == 0
    ensures i <= Max(limit, 0)
  {
    Max(LastIndexOf(text, ' ', limit), 0)
  }

  /**
   * `truncatePrompt(text, limit)`: an over-long text is cut at the last space
   * at or before index `limit` and marked with `Ellipsis`.
   */
  function Truncate(text: string, limit: int): (r: string)
    ensures |text| <= limit ==> r == text
    ensures |text| > limit ==>
      CutIndex(text, limit) <= |text| && r == text[..CutIndex(text, limit)] + Ellipsis
  {
    if |text| <= limit then text
    else Substring(text, 0, LastIndexOf(text, ' ', limit)) + Ellipsis
  }

  /** A text within the limit is shown as it is, without the marker. */
  lemma TruncateShortIsIdentity(text: string, limit: int)
    requires |text| <= limit
    ensures Truncate(text, limit) == text
  {
  }

  /**
   * An over-long text becomes a prefix of at most `limit` characters (none
   * for a negative limit) followed by exactly `Ellipsis`.
   */
  lemma TruncateLongShape(text: string, limit: int)
    requires |text| > limit
    ensures var r := Truncate(text, limit);
      |r| >= |Ellipsis| &&
      r[|r| - |Ellipsis|..] == Ellipsis &&
      r[..|r| - |Ellipsis|] == text[..|r| - |Ellipsis|] &&
      |r| - |Ellipsis| == CutIndex(text, limit) &&
      |r| - |Ellipsis| <= Max(limit, 0) &&
      (text != [] ==> |r| - |Ellipsis| < |text|)
  {
  }

  /**
   * When some index at or before `limit` holds a space, the cut index holds a
   * space, no later index up to `limit` does, and the result is the text up
   * to that space followed by `Ellipsis`.
   */
  lemma TruncateCutsAtLastSpace(text: string, limit: int)
    requires |text| > limit
    requires exists j :: 0 <= j <= limit && text[j] == ' '
    ensures var i := LastIndexOf(text, ' ', limit);
      0 <= i <= limit &&
      text[i] == ' ' &&
      (forall k :: i < k <= limit ==> text[k] != ' ') &&
      Truncate(text, limit) == text[..i] + Ellipsis
  {
  }

  /**
   * The degenerate case: with no space at any index up to `limit` the whole
   * text is dropped and the result is `Ellipsis` alone.
   */
  lemma TruncateNoSpaceIsEllipsis(text: string, limit: int)
    requires |text| > limit
    requires forall j :: 0 <= j <= limit ==> text[j] != ' '
    ensures Truncate(text, limit) == Ellipsis
  {
  }

  /**
   * An over-long text collapses to `Ellipsis` alone exactly when no index in
   * `[1, limit]` holds a space (a space at index 0 is cut at 0 as well).
   */
  lemma TruncateIsEllipsisIff(text: string, limit: int)
    requires |text| > limit
    ensures Truncate(text, limit) == Ellipsis
        <==> forall j :: 1 <= j <= limit ==> text[j] != ' '
  {
  }

  /** A single 150-character word under the compact limit leaves only `Ellipsis`. */
  lemma LongWordScenario()
    ensures var text := seq(150, _ => 'a');
      Truncate(text, CompactLimit) == Ellipsis &&
      |Truncate(text, CompactLimit)| < |text|
  {
  }

  /** A truncated text can be longer than the original. */
  lemma TruncateCanLengthen()
    ensures Truncate("aaaa b", 5) == "aaaa ..."
    ensures |Truncate("aaaa b", 5)| > |"aaaa b"|
  {
  }

  /* ---------------------------------------------------------------------------
   * Copy feedback
   * ------------------------------------------------------------------------- */

  /**
   * The `copied` hook state: `Initial` is its first value `""`, `Text(s)` is
   * a copied prompt, and `Cleared` is the `false` a reset timer writes.
   */
  datatype Copied = Initial | Text(s: string) | Cleared

  /** The delay in milliseconds before a copy's reset timer fires. */
  const ResetDelay: int := 3000

  /** The JavaScript value the hook holds: a string, or `None` for `false`. */
  function HookValue(copied: Copied): (v: Option<string>)
    ensures v.None? <==> copied == Cleared
  {
    match copied
    case Initial => Some("")
    case Text(s) => Some(s)
    case Cleared => None
  }

  /**
   * `copied === post.prompt`, JavaScript's strict equality on the hook state:
   * `false` equals no string, and a string equals only the same string.
   */
  function TickShown(copied: Copied, prompt: string): (shown: bool)
    ensures shown <==> HookValue(copied) == Some(prompt)
  {
    match copied
    case Initial => prompt == ""
    case Text(s) => s == prompt
    case Cleared => false
  }

  /** The tick never shows once a reset has fired; `Initial` shows it for an empty prompt. */
  lemma TickShownCases(prompt: string)
    ensures TickShown(Text(prompt), prompt)
    ensures !TickShown(Cleared, prompt)
    ensures TickShown(Initial, prompt) <==> prompt == ""
  {
  }

  /** The copy state of one card: hook value, reset deadlines still pending, clock. */
  datatype FeedbackState = FeedbackState(copied: Copied, pending: seq<int>, clock: int)

  /** No pending timer is already due: the event loop has run every one that is. */
  ghost predicate TimersAhead(s: FeedbackState)
  {
    forall i :: 0 <= i < |s.pending| ==> s.pending[i] > s.clock
  }

  /** Some deadline in `pending` has been reached by time `t`. */
  predicate Due(pending: seq<int>, t: int)
  {
    exists d :: d in pending && d <= t
  }

  /** A deadline added at the end is due exactly when it or an earlier one is. */
  lemma DueSnoc(pending: seq<int>, d: int, t: int)
    ensures Due(pending + [d], t) <==> Due(pending, t) || d <= t
  {
    if Due(pending + [d], t) && d > t {
      var e :| e in pending + [d] && e <= t;
      assert e in pending;
    }
    if Due(pending, t) {
      var e :| e in pending && e <= t;
      assert e in pending + [d];
    }
    if d <= t {
      assert d in pending + [d];
    }
  }

  /** The deadlines of `pending` still ahead of time `t`, in their order. */
  function Later(pending: seq<int>, t: int): (r: seq<int>)
    ensures forall d :: d in r <==> d in pending && d > t
    ensures |r| <= |pending|
  {
    if pending == [] then []
    else
      var init, last := pending[..|pending| - 1], pending[|pending| - 1];
      assert pending == init + [last];
      Later(init, t) + (if last > t then [last] else [])
  }

  /**
   * `Later` keeps order and duplicates: it works element by element, so on a
   * concatenation it is the concatenation of its results.
   */
  lemma {:induction false} LaterAppend(a: seq<int>, b: seq<int>, t: int)
    ensures Later(a + b, t) == Later(a, t) + Later(b, t)
    ensures Later([], t) == [] && (|b| == 1 ==> Later(b, t) == if b[0] > t then b else [])
  {
    if b != [] {
      var init, last := b[..|b| - 1], b[|b| - 1];
      LaterAppend(a, init, t);
      assert (a + b)[..|a + b| - 1] == a + init;
      assert (a + b)[|a + b| - 1] == last;
      if |b| == 1 {
        assert init == [];
      }
    } else {
      assert a + b == a;
    }
  }

  lemma {:induction false} LaterTwice(pending: seq<int>, t1: int, t2: int)
    requires t1 <= t2
    ensures Later(Later(pending, t1), t2) == Later(pending, t2)
  {
    if pending != [] {
      var init, last := pending[..|pending| - 1], pending[|pending| - 1];
      LaterTwice(init, t1, t2);
      var mid := Later(init, t1);
      if last > t1 {
        assert Later(pending, t1) == mid + [last];
        assert (mid + [last])[..|mid|] == mid;
        assert Later(mid + [last], t2) == Later(mid, t2) + (if last > t2 then [last] else []);
      } else {
        assert Later(pending, t1) == mid;
        assert Later(pending, t2) == Later(init, t2);
      }
    }
  }

  /** `handleCopy` at the current clock: show the prompt and schedule one reset. */
  function AfterCopy(s: FeedbackState, prompt: string): (r: FeedbackState)
    ensures r.copied == Text(prompt) && TickShown(r.copied, prompt)
    ensures r.clock == s.clock
    ensures |r.pending| == |s.pending| + 1 && r.pending[|s.pending|] == s.clock + ResetDelay
    ensures r.pending[..|s.pending|] == s.pending
    ensures TimersAhead(s) ==> TimersAhead(r)
  {
    FeedbackState(Text(prompt), s.pending + [s.clock + ResetDelay], s.clock)
  }

  /**
   * The clock moves to `t`: each deadline reached fires its reset, which sets
   * the hook to `Cleared` whatever it holds; the rest stay pending.
   */
  function AfterAdvance(s: FeedbackState, t: int): (r: FeedbackState)
    requires s.clock <= t
    ensures r.clock == t && TimersAhead(r)
    ensures forall d :: d in r.pending <==> d in s.pending && d > t
    ensures Due(s.pending, t) ==> r.copied == Cleared
    ensures !Due(s.pending, t) ==> r.copied == s.copied
  {
    var kept := Later(s.pending, t);
    assert forall i :: 0 <= i < |kept| ==> kept[i] in kept;
    FeedbackState(if Due(s.pending, t) then Cleared else s.copied, kept, t)
  }

  /** With every deadline after `t`, none is dropped. */
  lemma {:induction false} LaterAllAhead(pending: seq<int>, t: int)
    requires forall i :: 0 <= i < |pending| ==> pending[i] > t
    ensures Later(pending, t) == pending
  {
    if pending != [] {
      var init := pending[..|pending| - 1];
      LaterAllAhead(init, t);
      assert pending == init + [pending[|pending| - 1]];
    }
  }

  /** When no timer is overdue, advancing by zero changes nothing. */
  lemma AdvanceNowIsIdentity(s: FeedbackState)
    requires TimersAhead(s)
    ensures AfterAdvance(s, s.clock) == s
  {
    LaterAllAhead(s.pending, s.clock);
  }

  /** Advancing the clock in two steps is the same as advancing it once. */
  lemma AdvanceTwice(s: FeedbackState, t1: int, t2: int)
    requires s.clock <= t1 <= t2
    ensures AfterAdvance(AfterAdvance(s, t1), t2) == AfterAdvance(s, t2)
  {
    LaterTwice(s.pending, t1, t2);
    if Due(s.pending, t2) && !Due(s.pending, t1) {
      var d :| d in s.pending && d <= t2;
      assert d in Later(s.pending, t1);
    }
  }

  /** Once `ResetDelay` has passed after a copy, the tick is gone. */
  lemma CopyThenWaitClears(s: FeedbackState, prompt: string, t: int)
    requires t >= s.clock + ResetDelay
    ensures !TickShown(AfterAdvance(AfterCopy(s, prompt), t).copied, prompt)
  {
    var c := AfterCopy(s, prompt);
    assert c.pending[|s.pending|] in c.pending;
  }

  /**
   * Before `ResetDelay` has passed the tick stays, provided no reset scheduled
   * by an earlier copy comes due in the meantime.
   */
  lemma CopyHoldsUntilEarlierReset(s: FeedbackState, prompt: string, t: int)
    requires s.clock <= t < s.clock + ResetDelay
    requires forall d :: d in s.pending ==> d > t
    ensures TickShown(AfterAdvance(AfterCopy(s, prompt), t).copied, prompt)
  {
  }

  /**
   * The reset from a first copy also clears a second copy made 2999 ms later:
   * one millisecond after the second copy the tick is gone.
   */
  lemma StaleResetClearsLaterCopy(prompt: string)
    ensures var s0 := FeedbackState(Initial, [], 0);
      var s1 := AfterAdvance(AfterCopy(s0, prompt), 2999);
      var s2 := AfterAdvance(AfterCopy(s1, prompt), 3000);
      TickShown(s1.copied, prompt) && !TickShown(s2.copied, prompt)
  {
    var s0 := FeedbackState(Initial, [], 0);
    var c0 := AfterCopy(s0, prompt);
    assert c0.pending == [3000];
    var s1 := AfterAdvance(c0, 2999);
    assert s1.pending == [3000];
    var c1 := AfterCopy(s1, prompt);
    assert 3000 in c1.pending;
  }

  /* ---------------------------------------------------------------------------
   * Copy feedback with a stale-timer guard (corrected variant, not the card's
   * behaviour): a reset applies only when it is the reset of the latest copy,
   * identified by its deadline, which grows with every copy made later.
   * ------------------------------------------------------------------------- */

  datatype GuardedState = GuardedState(copied: Copied, pending: seq<int>, clock: int, latest: int)

  /**
   * Timers are ahead of the clock, none is scheduled past the latest copy's,
   * and the latest copy was made no later than now.
   */
  ghost predicate GuardedValid(s: GuardedState)
  {
    s.latest <= s.clock + ResetDelay &&
    forall i :: 0 <= i < |s.pending| ==> s.clock < s.pending[i] <= s.latest
  }

  /** The first render: no copy yet and no timer. */
  function GuardedStart(now: int): (r: GuardedState)
    ensures GuardedValid(r) && r.copied == Initial && r.clock == now
    ensures r.pending == [] && r.latest == now
  {
    GuardedState(Initial, [], now, now)
  }

  /** `handleCopy` with the guard: the copy becomes the latest one. */
  function GuardedCopy(s: GuardedState, prompt: string): (r: GuardedState)
    requires GuardedValid(s)
    ensures GuardedValid(r)
    ensures r.copied == Text(prompt) && TickShown(r.copied, prompt)
    ensures r.clock == s.clock && r.latest == s.clock + ResetDelay
    ensures r.pending == s.pending + [r.latest]
  {
    GuardedState(Text(prompt), s.pending + [s.clock + ResetDelay], s.clock, s.clock + ResetDelay)
  }

  /** Only the latest copy's own reset clears the hook; earlier ones are dropped silently. */
  function GuardedAdvance(s: GuardedState, t: int): (r: GuardedState)
    requires GuardedValid(s) && s.clock <= t
    ensures GuardedValid(r)
    ensures r.clock == t && r.latest == s.latest
    ensures forall d :: d in r.pending <==> d in s.pending && d > t
    ensures r.copied == if s.latest in s.pending && s.latest <= t then Cleared else s.copied
  {
    var kept := Later(s.pending, t);
    assert forall i :: 0 <= i < |kept| ==> kept[i] in kept;
    assert forall d :: d in s.pending ==> d <= s.latest;
    GuardedState(
      if s.latest in s.pending && s.latest <= t then Cleared else s.copied,
      kept, t, s.latest)
  }

  /**
   * With the guard, a copy's tick stays exactly until its own `ResetDelay`
   * has passed, whatever earlier copies scheduled.
   */
  lemma GuardedTickLastsOwnDelay(s: GuardedState, prompt: string, t: int)
    requires GuardedValid(s) && s.clock <= t
    ensures TickShown(GuardedAdvance(GuardedCopy(s, prompt), t).copied, prompt)
        <==> t < s.clock + ResetDelay
  {
  }

  /** With the guard too, advancing the clock in two steps is the same as advancing it once. */
  lemma GuardedAdvanceTwice(s: GuardedState, t1: int, t2: int)
    requires GuardedValid(s) && s.clock <= t1 <= t2
    ensures GuardedAdvance(GuardedAdvance(s, t1), t2) == GuardedAdvance(s, t2)
  {
    LaterTwice(s.pending, t1, t2);
  }

  /** The two-copy scenario with the guard: the tick survives the first reset. */
  lemma GuardedScenario(prompt: string)
    ensures var s0 := GuardedStart(0);
      var s1 := GuardedAdvance(GuardedCopy(s0, prompt), 2999);
      var s2 := GuardedAdvance(GuardedCopy(s1, prompt), 3000);
      var s3 := GuardedAdvance(s2, 5999);
      TickShown(s2.copied, prompt) && !TickShown(s3.copied, prompt)
  {
  }

  /* ---------------------------------------------------------------------------
   * Identity gate
   * ------------------------------------------------------------------------- */

  /** The route of the viewer's own profile page. */
  const OwnProfilePath: string := "/profile"

  /** `handleProfileClick`: the route the avatar click navigates to. */
  function ProfileTarget(viewer: Option<string>, creator: User): (target: string)
    ensures viewer != Some(creator.id) ==>
      target == "/profile/" + creator.id + "?name=" + creator.username
    ensures target == OwnProfilePath <==> viewer == Some(creator.id)
  {
    if viewer == Some(creator.id) then OwnProfilePath
    else
      var other := "/profile/" + creator.id + "?name=" + creator.username;
      assert |other| > |OwnProfilePath|;
      other
  }

  /** The condition guarding the Edit/Delete controls, in both views. */
  function OwnerControlsVisible(viewer: Option<string>, creator: User, path: string): (visible: bool)
    ensures visible <==> viewer.Some? && viewer.value == creator.id && path == OwnProfilePath
    ensures viewer.None? ==> !visible
    ensures visible ==> ProfileTarget(viewer, creator) == OwnProfilePath
  {
    match viewer
    case None => false
    case Some(id) => id == creator.id && path == OwnProfilePath
  }

  /** The tag click: the argument the tag callback is called with, if it was given one. */
  function TagClick<H>(handler: Option<H>, tag: string): (call: Option<string>)
    ensures call.Some? <==> handler.Some?
    ensures call.Some? ==> call.value == tag
  {
    if handler.Some? then Some(tag) else None
  }

  /* ---------------------------------------------------------------------------
   * Disclosure: what the compact card and the modal render
   * ------------------------------------------------------------------------- */

  /** The "Read More >>"/"Read Less" link after the compact text, when any. */
  function ExpandLink(prompt: string, showFull: bool): (link: Option<string>)
    ensures link.Some? <==> |prompt| > CompactLimit
    ensures link.Some? ==> link.value == if showFull then "Read Less" else "Read More >>"
  {
    if |prompt| > CompactLimit then Some(if showFull then "Read Less" else "Read More >>")
    else None
  }

  datatype CompactView = CompactView(
    text: string, expandLink: Option<string>, tag: string, tick: bool, ownerControls: bool)

  datatype ModalView = ModalView(text: string, tag: string, tick: bool, ownerControls: bool)

  /** The compact card: the prompt truncated at `CompactLimit`, and its link when it is long. */
  function RenderCompact(post: Post, viewer: Option<string>, path: string,
                         copied: Copied, showFull: bool): (v: CompactView)
    ensures v.text == Truncate(post.prompt, CompactLimit)
    ensures v.expandLink == ExpandLink(post.prompt, showFull)
    ensures v.tag == post.tag
    ensures v.expandLink.None? ==> v.text == post.prompt
    ensures v.expandLink.Some? ==>
      |v.text| >= |Ellipsis| && v.text[|v.text| - |Ellipsis|..] == Ellipsis &&
      v.text[..|v.text| - |Ellipsis|] <= post.prompt &&
      |v.text| - |Ellipsis| <= CompactLimit
    ensures v.tick == TickShown(copied, post.prompt)
    ensures v.ownerControls == OwnerControlsVisible(viewer, post.creator, path)
  {
    var v := CompactView(
      Truncate(post.prompt, CompactLimit), ExpandLink(post.prompt, showFull), post.tag,
      TickShown(copied, post.prompt), OwnerControlsVisible(viewer, post.creator, path));
    if |post.prompt| > CompactLimit then TruncateLongShape(post.prompt, CompactLimit); v
    else v
  }

  /** The modal: rendered only while `showFull` holds, with the whole prompt. */
  function RenderModal(post: Post, viewer: Option<string>, path: string,
                       copied: Copied, showFull: bool): (m: Option<ModalView>)
    ensures m.Some? <==> showFull
    ensures m.Some? ==> m.value.text == post.prompt && m.value.tag == post.tag
    ensures m.Some? ==>
      var v := RenderCompact(post, viewer, path, copied, showFull);
      m.value.tick == v.tick && m.value.ownerControls == v.ownerControls
  {
    if showFull then
      Some(ModalView(post.prompt, post.tag,
                     TickShown(copied, post.prompt), OwnerControlsVisible(viewer, post.creator, path)))
    else None
  }

  /**
   * The link follows the prompt's length, not whether truncation changed the
   * text: a 101-character prompt ending in " ..." truncates to itself but
   * still gets the link.
   */
  lemma LinkWithoutVisibleCut()
    ensures var p := seq(97, _ => 'a') + Ellipsis;
      Truncate(p, CompactLimit) == p && ExpandLink(p, false) == Some("Read More >>")
  {
  }

  /* ---------------------------------------------------------------------------
   * One card instance: its hook state and its timers
   * ------------------------------------------------------------------------- */

  class Card {
    const post: Post
    var copied: Copied
    var pending: seq<int>
    var clock: int
    /** Every text handed to the clipboard, oldest first. */
    var clipboard: seq<string>
    var showFullPrompt: bool

    /** No timer is overdue, and the hook holds `""`, this card's own prompt, or `false`. */
    ghost predicate Valid()
      reads this
    {
      TimersAhead(State()) &&
      (copied == Initial || copied == Text(post.prompt) || copied == Cleared)
    }

    /** On a valid card the tick shows after a copy, or before any copy for an empty prompt. */
    lemma TickShownWhenValid()
      requires Valid()
      ensures TickShown(copied, post.prompt)
          <==> copied == Text(post.prompt) || (copied == Initial && post.prompt == "")
    {
    }

    function State(): FeedbackState
      reads this
    {
      FeedbackState(copied, pending, clock)
    }

    /** The first render: `copied` is `""` and the modal is closed. */
    constructor (post: Post, now: int)
      ensures Valid()
      ensures this.post == post && copied == Initial && pending == [] && clock == now
      ensures clipboard == [] && !showFullPrompt
    {
      this.post := post;
      copied := Initial;
      pending := [];
      clock := now;
      clipboard := [];
      showFullPrompt := false;
    }

    /** `handleCopy`: the prompt goes to the hook and the clipboard, and a reset is scheduled. */
    method Copy()
      requires Valid()
      modifies this
      ensures Valid()
      ensures State() == AfterCopy(old(State()), post.prompt)
      ensures clipboard == old(clipboard) + [post.prompt]
      ensures showFullPrompt == old(showFullPrompt)
      ensures TickShown(copied, post.prompt) && clipboard[|clipboard| - 1] == post.prompt
    {
      copied := Text(post.prompt);
      clipboard := clipboard + [post.prompt];
      pending := pending + [clock + ResetDelay];
    }

    /** The event loop runs up to time `t`, firing every reset whose deadline is reached. */
    method Advance(t: int)
      requires Valid() && clock <= t
      modifies this
      ensures Valid()
      ensures State() == AfterAdvance(old(State()), t)
      ensures clipboard == old(clipboard) && showFullPrompt == old(showFullPrompt)
    {
      var timers, kept, hook := pending, [], copied;
      for i := 0 to |timers|
        invariant kept == Later(timers[..i], t)
        invariant hook == if Due(timers[..i], t) then Cleared else copied
        modifies {}
      {
        var d := timers[i];
        assert timers[..i + 1] == timers[..i] + [d];
        DueSnoc(timers[..i], d, t);
        if d <= t {
          hook := Cleared;
        } else {
          kept := kept + [d];
        }
      }
      assert timers[..|timers|] == timers;
      copied, pending, clock := hook, kept, t;
      assert State() == AfterAdvance(old(State()), t);
    }

    /** `openFullPrompt`. */
    method Open()
      requires Valid()
      modifies this`showFullPrompt
      ensures Valid() && showFullPrompt
    {
      showFullPrompt := true;
    }

    /** `closeFullPrompt`. */
    method Close()
      requires Valid()
      modifies this`showFullPrompt
      ensures Valid() && !showFullPrompt
    {
      showFullPrompt := false;
    }

    /** Whether the modal overlay is rendered in the card's present state. */
    function ModalShown(viewer: Option<string>, path: string): (shown: bool)
      reads this
      ensures shown <==> showFullPrompt
    {
      RenderModal(post, viewer, path, copied, showFullPrompt).Some?
    }
  }

  /** A client: copying, opening the modal and waiting out the delay. */
  method CardScenario(post: Post)
  {
    var card := new Card(post, 0);
    card.Copy();
    assert TickShown(card.copied, post.prompt);
    card.Open();
    assert card.ModalShown(None, OwnProfilePath);
    assert TickShown(card.copied, post.prompt);
    card.Advance(ResetDelay);
    assert card.State() == AfterAdvance(AfterCopy(FeedbackState(Initial, [], 0), post.prompt), ResetDelay);
    CopyThenWaitClears(FeedbackState(Initial, [], 0), post.prompt, ResetDelay);
    assert !TickShown(card.copied, post.prompt);
    card.Close();
    assert !card.ModalShown(None, OwnProfilePath);
    assert card.clipboard == [post.prompt];
  }
}
