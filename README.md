# PromptCard interaction logic in Dafny

A model of the logic inside the `PromptCard` React component of intelliprompt,
the card that shows one prompt in a feed, with a modal for the full text. The
model lives in one module, `PromptCard` (`promptcard.dfy`), and has four parts.

- **Truncation.** `Truncate` is `truncatePrompt`. It is written on top of
  models of JavaScript's `lastIndexOf` (`LastIndexOf`) and `substring`
  (`Substring`), including the clamping both do. So a failed search (-1) cuts
  at 0.
- **Copy feedback.** The `copied` hook is the datatype `Copied`: `Initial` is
  the initial `""`, `Text(s)` is a copied prompt, `Cleared` is the `false`
  written by a reset timer. `TickShown` is the `copied === post.prompt` test.
  Time is an explicit clock plus a sequence of pending reset deadlines.
  `AfterCopy` and `AfterAdvance` are the transitions as pure functions. The
  class `Card` holds the same state as fields, and its methods `Copy` and
  `Advance` are proved to perform exactly those transitions.
- **Disclosure.** `Card.Open` and `Card.Close` set `showFullPrompt`.
  `ExpandLink` gives the "Read More >>" / "Read Less" link. `RenderCompact`
  and `RenderModal` give what the compact card and the modal show, for the
  same post and state.
- **Identity gate.** `OwnerControlsVisible` is the Edit/Delete condition.
  `ProfileTarget` is the route chosen by `handleProfileClick`. `TagClick` is
  the guarded call of the tag callback. The viewer is an `Option<string>` of
  the session's user id. The route is a plain string parameter.

Four points where the code may surprise a reader:
- the truncation looks only for the space character, not for any whitespace;
- the avatar route for another user starts with `/profile/`;
- every reset timer clears the hook unconditionally, with no guard against
  stale timers (see Findings);
- the expand link always calls `openFullPrompt`, even when its label reads
  "Read Less", so that label never closes anything; only the modal's close
  glyph calls `closeFullPrompt`.

## Model

| member | source | states |
|---|---|---|
| `PromptCard.LastIndexOf` | components/PromptCard.jsx:37 | The result is -1 or an index holding the character, no later than the clamped search position; no index after it, up to that position, holds the character. |
| `PromptCard.Substring` | components/PromptCard.jsx:38 | Both indices are clamped to the text and the slice runs from the smaller to the larger. Inside the bounds it is ordinary slicing, and a negative or zero end index clamps to 0, so `substring(0, -1)` is empty. |
| `PromptCard.CutIndex` | components/PromptCard.jsx:37-38 | The index where an over-long text is cut is a valid index of a non-empty text, and 0 for the empty one. It is at most `limit` (at most 0 for a negative limit). |
| `PromptCard.Truncate` | components/PromptCard.jsx:35-39 | A text within the limit is returned unchanged. A longer text becomes the text up to `CutIndex` followed by `" ..."`. The last-space and degenerate-case properties follow in the `Truncate*` lemmas. |
| `PromptCard.TruncateShortIsIdentity` | components/PromptCard.jsx:36 | A text no longer than the limit comes back unchanged, with no marker. |
| `PromptCard.TruncateLongShape` | components/PromptCard.jsx:37-38 | An over-long text becomes a prefix of the text followed by exactly `" ..."`. The prefix is at most `limit` characters long (none for a negative limit) and, for a non-empty text, shorter than it. |
| `PromptCard.TruncateCutsAtLastSpace` | components/PromptCard.jsx:37 | If a space occurs at some index up to `limit`, the cut index holds a space, no space occurs after it up to `limit`, and the result is the text up to that space plus `" ..."`. |
| `PromptCard.TruncateNoSpaceIsEllipsis` | components/PromptCard.jsx:37-38 | If no space occurs at any index up to `limit`, the result is `" ..."` alone. |
| `PromptCard.TruncateIsEllipsisIff` | components/PromptCard.jsx:37-38 | An over-long text collapses to `" ..."` exactly when no index from 1 to `limit` holds a space. A space at index 0 also cuts at 0. |
| `PromptCard.LongWordScenario` | components/PromptCard.jsx:85 | 150 letters `a` under the compact limit 100 give `" ..."`, which is shorter than the text. |
| `PromptCard.TruncateCanLengthen` | components/PromptCard.jsx:37-38 | Truncation is not always shorter: `"aaaa b"` with limit 5 gives `"aaaa ..."`. |
| `PromptCard.TickShown` | components/PromptCard.jsx:72-76 | The tick shows exactly when the hook's JavaScript value is the prompt string. The value is `""` initially, the copied text after a copy, and `false` after a reset, which equals no string. |
| `PromptCard.TickShownCases` | components/PromptCard.jsx:72 | A copied prompt shows the tick, a cleared hook never does, and the initial `""` shows it exactly for an empty prompt. |
| `PromptCard.Later` | components/PromptCard.jsx:24 | The timers still pending after time `t` are exactly the pending deadlines later than `t`. |
| `PromptCard.LaterAppend` | components/PromptCard.jsx:24 | Dropping due timers works deadline by deadline: on a concatenation it is the concatenation of the results, and a single deadline is kept exactly when it is after `t`. So the timers left keep their order and duplicates. |
| `PromptCard.LaterTwice` | components/PromptCard.jsx:24 | Dropping the timers due by `t1` and then those due by a later `t2` is the same as dropping those due by `t2`. |
| `PromptCard.AfterCopy` | components/PromptCard.jsx:21-25 | A copy sets the hook to the prompt, so the tick shows, and leaves the clock alone. It keeps every earlier timer and schedules one more at clock + 3000. It keeps timers ahead of the clock. |
| `PromptCard.AfterAdvance` | components/PromptCard.jsx:24 | Moving the clock to `t` clears the hook if any deadline was reached, whatever the hook held, and leaves it alone otherwise. The timers left are exactly those after `t`. |
| `PromptCard.LaterAllAhead` | components/PromptCard.jsx:24 | When every pending deadline is after `t`, no timer fires and the pending list is unchanged. |
| `PromptCard.AdvanceNowIsIdentity` | components/PromptCard.jsx:24 | When no timer is overdue (the invariant `Card.Valid` keeps), advancing the clock by zero changes nothing. |
| `PromptCard.AdvanceTwice` | components/PromptCard.jsx:24 | Advancing the clock in two steps ends in the same state as advancing it once. |
| `PromptCard.CopyThenWaitClears` | components/PromptCard.jsx:21-25 | Once 3000 ms have passed after a copy, the tick is gone. |
| `PromptCard.CopyHoldsUntilEarlierReset` | components/PromptCard.jsx:21-25 | Before 3000 ms have passed the tick stays, provided no earlier copy's timer comes due in between. |
| `PromptCard.StaleResetClearsLaterCopy` | components/PromptCard.jsx:24 | As written: copy at 0 ms and again at 2999 ms. At 3000 ms the first copy's reset clears the second copy's tick. |
| `PromptCard.GuardedStart` | components/PromptCard.jsx:10 | Corrected variant: the initial state holds `Initial`, no timer, the given clock as the latest key, and satisfies the guard invariant. |
| `PromptCard.GuardedCopy` | components/PromptCard.jsx:21-25 | Corrected variant: a copy sets the hook to the prompt, becomes the latest copy with key clock + 3000, leaves the clock alone and keeps the guard invariant. |
| `PromptCard.GuardedAdvance` | components/PromptCard.jsx:24 | Corrected variant: only the latest copy's own timer clears the hook. The timers left are exactly those after `t`, and the guard invariant is kept. |
| `PromptCard.GuardedTickLastsOwnDelay` | components/PromptCard.jsx:21-25 | Corrected variant: after a copy the tick shows at time `t` exactly when `t` is less than 3000 ms after that copy, whatever earlier copies scheduled. |
| `PromptCard.GuardedAdvanceTwice` | components/PromptCard.jsx:24 | Corrected variant: advancing the clock in two steps ends in the same state as advancing it once, so waits taken in several steps keep the tick-duration result. |
| `PromptCard.GuardedScenario` | components/PromptCard.jsx:21-25 | Corrected variant: in the two-copy scenario the tick survives 3000 ms and is gone at 5999 ms. |
| `PromptCard.ProfileTarget` | components/PromptCard.jsx:13-19 | The target is `"/profile"` exactly when the viewer is the creator. Otherwise, including an absent viewer, it is `/profile/<id>?name=<username>`. It takes no route argument, so it does not depend on the current page. |
| `PromptCard.OwnerControlsVisible` | components/PromptCard.jsx:101 | Shown exactly when a viewer is present, is the creator, and the path is `"/profile"`. It is never shown for an absent viewer. Whenever it is shown, the profile target is `"/profile"`. |
| `PromptCard.TagClick` | components/PromptCard.jsx:96 | The callback is called exactly when it was given, and then with the post's tag. |
| `PromptCard.ExpandLink` | components/PromptCard.jsx:86-90 | The link is present exactly when the prompt is longer than 100. Its label is "Read Less" while the modal is open and "Read More >>" otherwise. |
| `PromptCard.RenderCompact` | components/PromptCard.jsx:83-116 | The compact text is the prompt truncated at 100, the link is `ExpandLink` of the prompt and the modal flag, and the tag is the post's. So with no link the whole prompt is shown, and with a link a prefix of at most 100 characters plus `" ..."`. The tick and the owner controls follow `TickShown` and `OwnerControlsVisible`. |
| `PromptCard.RenderModal` | components/PromptCard.jsx:119-179 | The modal is rendered exactly when `showFullPrompt` holds. It shows the whole prompt and the tag. Its tick and owner controls agree with the compact card's. |
| `PromptCard.LinkWithoutVisibleCut` | components/PromptCard.jsx:85-90 | The link follows the prompt length, not whether truncation changed the text. 97 letters followed by `" ..."` truncate to themselves and still get "Read More >>". |
| `PromptCard.Card.constructor` | components/PromptCard.jsx:10-11 | A new card has `copied` initial, no timers, an empty clipboard log and the modal closed. |
| `PromptCard.Card.Copy` | components/PromptCard.jsx:21-25 | The new state is `AfterCopy` of the old one. The prompt is appended to the clipboard log. The modal flag is unchanged. The tick shows. |
| `PromptCard.Card.Advance` | components/PromptCard.jsx:24 | The new state is `AfterAdvance` of the old one, computed by a loop over the pending timers. The clipboard log and the modal flag are unchanged. |
| `PromptCard.Card.Open` | components/PromptCard.jsx:27-29 | `showFullPrompt` becomes true, nothing else changes and the card invariant is kept, so a second call changes nothing. |
| `PromptCard.Card.Close` | components/PromptCard.jsx:31-33 | `showFullPrompt` becomes false, nothing else changes and the card invariant is kept, so a second call changes nothing. |
| `PromptCard.Card.TickShownWhenValid` | components/PromptCard.jsx:72 | On a card whose hook holds only `""`, its own prompt or `false` (kept by every method), the tick shows exactly after a copy, or before any copy when the prompt is empty. |
| `PromptCard.Card.ModalShown` | components/PromptCard.jsx:119 | The modal is rendered exactly when the card's `showFullPrompt` holds. |

## Findings

| source | as written | input that shows it | evidently intended | confidence | as-written member | corrected member |
|---|---|---|---|---|---|---|
| components/PromptCard.jsx:24 | Every reset timer sets `copied` to `false`, including a timer from an earlier copy. | Copy at 0 ms, copy again at 2999 ms, clock at 3000 ms: the tick is gone 1 ms after the second copy. | Each copy shows its tick for its own 3000 ms. | medium, not executed | `PromptCard.StaleResetClearsLaterCopy` | `PromptCard.GuardedTickLastsOwnDelay` |

The corrected variant (`GuardedState`, `GuardedCopy`, `GuardedAdvance`) keys
the reset to the latest copy. The key is that copy's deadline, which grows with
every copy made at a later instant, so it serves as the generation token. The
`Card` class keeps the behaviour as written, because it models the component
as it is.

## Left out

- The JSX markup, the `Image` elements, the `<style jsx>` block and the user name and email texts are presentation only.
- `promptCardHeight` only picks a CSS height.
- `navigator.clipboard.writeText` is a browser API. It is recorded as an append to `Card.clipboard`, and a failed write is not modelled. In particular, on a page without `navigator.clipboard` the call throws before the reset timer is scheduled, so in the real component the tick then stays for good; `Card.Copy` always schedules the reset.
- `useSession`, `usePathname` and `useRouter` are framework hooks. The viewer id and the path are parameters, and the navigation target is a returned string.
- `setTimeout` and the event loop are replaced by the card's clock and its pending deadlines. `Copy` acts at the card's current clock. `Advance` only moves the clock forward, because time does not go backwards. Every timer is taken to fire exactly at its deadline, before any later click; a real `setTimeout` may run late, and a click landing between a deadline and its late timer would have that timer clear the new copy, which the model cannot express.
- `handleEdit` and `handleDelete` are opaque callbacks that are only wired to clicks. `RenderCompact` and `RenderModal` record only whether the controls are shown.
- The card's post is a constant of the card. Re-renders with changed props are not modelled, and each card instance has its own state.
- Strings are sequences of Dafny characters. JavaScript's UTF-16 code units and surrogate pairs are not modelled.
- `Truncate` takes an integer limit. Fractional, NaN or infinite limits are not modelled; the component only passes 100.
- `LastIndexOf` models a one-character search string only, which is the only kind the component uses.
