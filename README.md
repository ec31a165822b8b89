# Gallery carousel and navigation bar, modelled in Dafny

This project models the page script `script.js` of a marketing page. It covers two parts.

- **Hero gallery carousel.** It has N slides and their indicators, each with an `active` class. The index `currentSlide` names the slide on show. A repeating 8-second interval calls `nextSlide`. The next and prev buttons, an indicator click, ArrowLeft and ArrowRight each change slide and, when that slide change completes, stop and restart the interval; other keys do nothing. Hovering over the gallery stops the interval. Leaving the gallery starts one.
- **Navigation bar.** After every scroll, `updateActiveNavLink` picks the last of `hero`, `about`, `sponsors` and `contact` whose top edge is at most 150 px below the viewport top, or above it. The default is `hero`. It then marks exactly the links pointing at that section as active. The bar also has the mobile menu's `active` flags, the body's overflow lock and the navbar's `scrolled` class.

Files:

- `flags.dfy` (module `Flags`): a row of `active` classes as booleans. `OneHot` means one element is active and `AllClear` means none is. `CountActive` counts the active elements. `ClearAll` is the in-place `forEach(... remove('active'))`.
- `autoadvance.dfy` (module `AutoAdvance`): the host timer facility as a value. It holds the set of live interval ids and the next id `setInterval` hands out. `AutoSlide` pairs the host's table with the `slideInterval` variable. `Start` and `Stop` are `startAutoSlide` and `stopAutoSlide`.
- `gallery.dfy` (module `Gallery`): the index arithmetic, with JavaScript's truncating `%` written out as `JsRem`. It also has the slide `Step`s and `Run`, the page `Event`s, and `TimerAfter`, the timer effect of each event. The class `Carousel` keeps the slide and indicator flags in `array<bool>` and has `currentSlide`, `slideInterval` and `host` as fields. Its methods are `showSlide`, `nextSlide`, `prevSlide`, `startAutoSlide`, `stopAutoSlide` and one `Handle` entry point for all listeners.
- `nav.dfy` (module `Nav`): the section selection `LastReached` / `SelectedSection`, and the loop `CurrentSection` that computes it. The class `NavBar` holds the links' flags in an `array<bool>`, plus the menu, overflow and `scrolled` flags.

Where `showSlide` reaches a slide or indicator that does not exist, the script throws a `TypeError`. The model keeps that path:

- The two clearing loops have already run.
- The slide flag is set when only the indicator is missing.
- `currentSlide` keeps its old value.
- An interaction handler stops there, so it does not restart the timer.

What the code does, set against its own comments:

- The handlers marked "// Restart auto-advance" (script.js:57, 70, 81) and the arrow-key handler stop and then start the timer. The handler under "// Pause auto-advance on hover" (script.js:85) stops it on `mouseenter` but calls `startAutoSlide` alone on `mouseleave`, and `startAutoSlide` does not clear the interval it replaces. See the finding below.
- Only the start at load (script.js:105-108) is guarded by `slides.length > 1`. A button or indicator click, ArrowLeft or ArrowRight whose slide change completes, and any `mouseleave`, arms the timer whatever N is.
- An indicator click's `showSlide(index)` (script.js:79) does no bounds check of its own. It indexes `slides[index]` and `indicators[index]`, which throws when either is missing, and that is modelled.

## Model

| member | source | states |
|---|---|---|
| Flags.OneHotCount | script.js:19-29 | marking one in-range element leaves exactly one element active; an out-of-range index leaves none |
| Flags.AllClearCount | script.js:21-22 | after the clearing loops no element is active |
| Flags.ClearAll | script.js:21-22 | the in-place loop removes `active` from every element of the row |
| AutoAdvance.Start | script.js:41-43 | arming stores a fresh id and adds it to the live set, keeping every interval already live; the host table stays well-formed |
| AutoAdvance.Stop | script.js:45-47 | stopping removes only the stored id from the live set and leaves the variable holding it |
| AutoAdvance.AtMostStoredLiveIsAtMostOne | script.js:41-47 | when only the stored interval can be live, at most one interval is live |
| AutoAdvance.RestartLeavesOneLive | script.js:55-57 | stop-then-start with at most the stored interval live leaves exactly one live interval, the newly stored one |
| AutoAdvance.EnterPauses | script.js:85-88 | when at most the stored interval is live, `mouseenter` leaves no interval live, a full pause |
| AutoAdvance.StopClearsStored | script.js:88 | `mouseenter` leaves the stored interval dead and every other live interval live |
| AutoAdvance.StartLeaksLiveInterval | script.js:89 | `mouseleave` with the stored interval still live leaves the old and the new one both live, one more than before, with the old one no longer stored |
| Gallery.NextIndexWraps | script.js:31-34 | `nextSlide` goes from slide i to i+1, and from the last slide to 0 |
| Gallery.PrevIndexWraps | script.js:36-39 | `prevSlide` goes from slide i to i-1, and from slide 0 to N-1 |
| Gallery.PrevUndoesNext | script.js:31-39 | `prevSlide` after `nextSlide` restores the index, and the other way round |
| Gallery.RunInRange | script.js:19-39 | any sequence of next, prev and indicator steps from an index in [0, N) stays in [0, N), with or without a throw on the way |
| Gallery.RunIsSignedSum | script.js:31-39 | when every slide has an indicator, next and prev steps end on the start index plus the signed number of steps, modulo N |
| Gallery.ThreeNextsWrap | script.js:31-34 | with three slides, three `nextSlide`s from 0 visit 1, 2 and then 0 |
| Gallery.StepOf | script.js:41-103 | only hover, leaving and keys other than ArrowLeft and ArrowRight ask for no slide change |
| Gallery.FixedKeepsOneInterval | script.js:86-90 | with `mouseleave` restarting instead of starting, every event keeps at most the stored interval live |
| Gallery.FixedRunKeepsOneInterval | script.js:41-47 | with that correction, any session of events keeps at most one live interval |
| Gallery.LoadKeepsOneInterval | script.js:105-108 | the timer state after page load, armed or not, has at most the stored interval live, so the corrected handling keeps at most one interval live for any session from load |
| Gallery.HoverNavigateLeaveLeaks | script.js:86-90 | as written, hover, then a navigation (which re-arms), then leaving leaves two live intervals |
| Gallery.Carousel.constructor | script.js:105-108 | at load `currentSlide` is 0, and an interval is armed if and only if there is more than one slide |
| Gallery.Carousel.ShowSlide | script.js:19-29 | afterwards slide `index` is the only active slide and indicator `index` the only active indicator; when either is missing the call throws, with the flags left as far as the script got and the index unchanged |
| Gallery.Carousel.NextSlide | script.js:31-34 | shows slide `(currentSlide + 1) % N` and moves the index as `StepIndex` says for a Next step |
| Gallery.Carousel.PrevSlide | script.js:36-39 | shows slide `(currentSlide - 1 + N) % N` and moves the index as `StepIndex` says for a Prev step |
| Gallery.Carousel.StartAutoSlide | script.js:41-43 | the timer state becomes `Start` of the old one, without clearing the old interval |
| Gallery.Carousel.StopAutoSlide | script.js:45-47 | the timer state becomes `Stop` of the old one |
| Gallery.Carousel.Handle | script.js:49-103 | each listener shows the requested slide and keeps the index in [0, N); when the slide change completes, button, indicator and arrow-key handlers stop then start the timer; hover stops it and leaving starts it |
| Nav.LastReachedIsLast | script.js:165-179 | the selected section is the default when no section is reached, and otherwise a reached section after which none is reached |
| Nav.TopOfPageSelectsHero | script.js:166-179 | when none of about, sponsors and contact is reached, `hero` is selected |
| Nav.AboutReachedSelectsAbout | script.js:166-179 | when about is reached and sponsors and contact are not, `about` is selected |
| Nav.Fragment | script.js:183 | a link's target is its href with the first character dropped, and empty for an empty href |
| Nav.ActiveLinks | script.js:181-187 | link j is active exactly when its target equals the selected section |
| Nav.CurrentSection | script.js:166-179 | the loop over the sections ends on the selected section, which is the default or a reached section |
| Nav.NavBar.constructor | script.js:204-205 | at load the links are marked for the initial geometry |
| Nav.NavBar.UpdateActiveNavLink | script.js:165-188 | afterwards exactly the links pointing at the selected section are active |
| Nav.NavBar.ToggleMenu | script.js:116-120 | both `active` flags flip, overflow is hidden exactly when the menu is now open, and agreeing flags keep agreeing |
| Nav.NavBar.CloseMenu | script.js:134-136 | the toggle and menu flags are cleared and overflow is released |
| Nav.NavBar.ClickLink | script.js:124-136 | only the clicked link stays active and the menu is closed |
| Nav.NavBar.ClickDocument | script.js:153-158 | a click outside both the menu and the toggle closes the menu; any other click changes nothing |
| Nav.NavBar.Scroll | script.js:190-202 | `scrolled` is set exactly when the scroll offset exceeds 50, and the links are re-marked |
| Nav.NavBar.Resize | script.js:208-214 | a width above 768 closes the menu; a narrower one changes nothing |

## Findings

| source | as written | input that shows it | evidently intended | confidence | as-written member | corrected member |
|---|---|---|---|---|---|---|
| script.js:86-90 | `mouseleave` calls `startAutoSlide`, which arms a new interval without clearing the stored one | mouseenter over the gallery, ArrowRight (its handler stops and re-arms the timer while the mouse is still over the gallery), then mouseleave: two intervals are live and the slides advance twice per period, one of them from an interval no handler can clear again | resuming after hover replaces the stored interval, so at most one interval is ever live | medium, not executed | Gallery.HoverNavigateLeaveLeaks | Gallery.FixedRunKeepsOneInterval |

The class `Gallery.Carousel` models the script as written, so its `Handle` uses `TimerAfter`. `TimerAfterFixed` is the corrected handling. It differs only for `mouseleave`.

## Left out

- Background images from `data-bg` (script.js:12-17) are left out. They are a style side effect with no logic.
- `console.log` tracing, `e.preventDefault()` and the smooth `scrollIntoView` are left out. They change no modelled state.
- `document.body.style.overflow` is modelled only as the boolean `overflowHidden`.
- The `querySelector` null checks are left out. The model assumes the buttons, the gallery, the toggle and the menu are all on the page.
- Nav.Fragment: hrefs are Unicode characters, not UTF-16 code units; an href whose first character is outside the BMP differs. JavaScript's `substring(1)` drops one code unit and `===` compares code units, so `"😀hero".substring(1)` is not `"hero"`, while the model's `Fragment` of that href is `"hero"`. The page's hrefs are `#` followed by a section id, where the two agree.
- A link without an `href` is left out. There `getAttribute` returns null and the script throws.
- Real time is left out: the 8000 ms period and when a callback fires. A live interval's callback is the event `TimerFire(h)`, and `Handle` requires `h` to be live.
- Geometry is taken as integer inputs. Section tops are a map from each present section to its top. The scroll offset and window width are integers. `pageYOffset || scrollTop` and the browser's floats are not modelled.
- Which element a document click hit (`contains`) is given to `ClickDocument` as two booleans. The order in which a click bubbles from a link to the document is not modelled; each handler is its own method.
- N = 0 is left out. The `Carousel` constructor requires at least one slide, because with none `% slides.length` is NaN in JavaScript.
- The second, near-identical copy of the script elsewhere in the repository is not part of this model.
