# Portfolio page UI rules, modelled in Dafny

`script.js` of the portfolio site wires browser events (scroll, keydown,
mousemove, click, submit, intersection) to small pieces of UI state. This
project models the rules inside those callbacks, with the DOM replaced by
integers, strings, sequences and sets, in one module `Portfolio`
(`portfolio.dfy`):

- **Active navigation link** (`updateActiveNavLink`): sections are
  `(id, top, height)`; the probe is `scrollY + 100`; a section matches when
  `top <= probe < top + height`. Every match clears all nav links and
  activates its own, so the last matching section in document order decides.
  A match whose section has no link leaves no link active; no match leaves
  the links as they were. `NavHighlighter` holds the link set and the active
  subset.
- **Scroll throttle** (`ticking` / `handleScroll`): `ScrollHandler` keeps the
  `ticking` flag, the count of animation-frame requests not yet served, and
  the number of frame passes run. A frame runs the three passes
  (active link, navbar background at `scrollY > 50`, scroll reveal) on the
  layout sampled when it fires. The pure state machine `Throttle` with
  `AfterNotify` / `AfterFrame` / `Run` specifies it.
- **Reveal scheduler** (`animateOnScroll` and the IntersectionObserver
  callback): a `setTimeout` is an entry appended to `Revealer.timers`;
  adding the `animate` class is inserting into `Revealer.animated`. Position
  `i` of a batch, when due, gets delay `i * 100`. On the scroll path an
  element is due when its top is `< innerHeight - 150`; on the observer path
  an entry is due when it is intersecting.
- **Konami detector**: `KonamiDetector.buffer` is the `konamiCode` array:
  push, shift past ten codes, compare with `join(",")`, reset on a match.
  `Join` is modelled literally and proved injective on non-empty
  comma-free lists (`[]` and `[""]` both join to "").
- **Mouse trail**: `MouseTrail.points` holds at most twenty points; moves
  are ignored when `innerWidth <= 768`.
- **Contact form**: `IsValidEmail` is the regular expression
  `/^[^\s@]+@[^\s@]+\.[^\s@]+$/` as a predicate, with `\s` written out as
  the ECMAScript WhiteSpace and LineTerminator code points. `ScanEmail` is a
  one-pass scanner proved equal to it. `SubmitDecision` is the order of the
  submit checks.
- **Menu and keyboard**: `Menu` holds the `active` class of `#nav-menu` and
  the toggle icon's text; `ShortcutTarget` is the Ctrl/Meta + digit switch;
  `ScrollToSection` gives the scroll target `offsetTop - 80`.

## Behaviour worth noting

- `sections.forEach` at script.js:59-77 cannot stop early, and every match
  overwrites the previous one, so the last covering section in document
  order wins (`LastMatch`, `ActivePassOutcome`).
- Neither `animateOnScroll` (script.js:97-106) nor the observer callback
  (script.js:401-407) checks the `animate` class: both schedule an element
  again, and only the idempotence of adding a class keeps the result the
  same (`Revealer.AnimateOnScroll`, `Revealer.FireTimer`).

## Model

| member | source | states |
|---|---|---|
| `Portfolio.Covers` | script.js:65 | definition: a section covers the probe iff top <= probe < top + height; used by `LastMatch` and `ActivePassOutcome` |
| `Portfolio.ActiveAfter` | script.js:55-78 | definition of one classification pass; its meaning is proved by `ActivePassOutcome` |
| `Portfolio.Stagger` | script.js:97-106 | definition of the timers a batch appends; its meaning is proved by `StaggerExact`, `StaggerIncreasing` and `StaggerAllDue` |
| `Portfolio.ScrollCandidates` | script.js:97-101 | definition of the scroll-path batch (due iff top < innerHeight − 150); its meaning is proved by `ScrollScheduleExact` |
| `Portfolio.ObserverCandidates` | script.js:401-402 | definition of the observer-path batch (due iff intersecting); its meaning is proved by `ObserverScheduleExact` |
| `Portfolio.AfterNotify` | script.js:132-142 | definition of handleScroll on the throttle state; its meaning is proved by `StepFacts` and `NotifiesWhileTicking` |
| `Portfolio.AfterFrame` | script.js:134-139 | definition of the frame callback on the throttle state; its meaning is proved by `StepFacts` |
| `Portfolio.Run` | script.js:131-142 | definition of a sequence of notifies and frames; its meaning is proved by `RunKeepsInv`, `RunCountsPasses` and `BurstThenFrame` |
| `Portfolio.PushDropOldest` | script.js:466-474 | definition of push followed by one shift past the capacity; its meaning is proved by `PushDropOldestKeepsRecent` |
| `Portfolio.Join` | script.js:603 | definition of `join(",")`; its meaning is proved by `JoinInjective` |
| `Portfolio.KonamiStep` | script.js:596-607 | definition of one keydown on the buffer, compared with the ten codes of `KonamiSequence` (script.js:583-594); its meaning is proved by `KonamiStepMeaning` |
| `Portfolio.IsValidEmail` | script.js:204-207 | definition of the regex as a predicate; its meaning is proved by `EmailShape` and `ScanEmail` |
| `Portfolio.Filled` | script.js:163 | definition of the `!field` test on a FormData value (absent or empty); used by `SubmitDecision` |
| `Portfolio.IsSpace` | script.js:205 | definition of the `\s` class of the email regex: the ECMAScript WhiteSpace and LineTerminator code points; used by `IsValidEmail` and `ScanEmail` |
| `Portfolio.KonamiDetector.constructor` | script.js:582 | the buffer starts empty (`let konamiCode = []`), with no codes since reset and no activation |
| `Portfolio.MouseTrail.constructor` | script.js:460 | the trail starts empty (`const mouseTrail = []`) with no accepted points |
| `Portfolio.LastMatch` | script.js:59-77 | the result is none exactly when no section contains the probe; otherwise it is a section that contains it and no later section does |
| `Portfolio.ActivePassOutcome` | script.js:55-78 | with no matching section the active links are unchanged; otherwise they are exactly the last matching section's link, or none if it has no link; the active set stays within the links and at most one link is active afterwards when at most one was before |
| `Portfolio.NavHighlighter.UpdateActiveNavLink` | script.js:55-78 | the loop over the sections leaves the active links equal to `ActiveAfter` of the old ones, and the active links stay a subset of the nav links |
| `Portfolio.StaggerExact` | script.js:97-106 | a batch position gets the timer (its element, position × 100) if and only if it is due, and every timer of the batch is one of those |
| `Portfolio.StaggerDelaysBelow` | script.js:104 | every delay of a batch of n positions is below n × 100 |
| `Portfolio.StaggerIncreasing` | script.js:97-106 | the delays of the scheduled timers strictly increase with list position |
| `Portfolio.StaggerAllDue` | script.js:401-407 | when every position is due, the batch is scheduled at delays 0, 100, 200, ... in order |
| `Portfolio.ScrollScheduleExact` | script.js:97-106 | element i is scheduled at delay i × 100 if and only if its top is strictly below innerHeight − 150, and nothing else is scheduled |
| `Portfolio.ObserverScheduleExact` | script.js:400-408 | only intersecting entries are scheduled, each at delay (its position in the batch) × 100 |
| `Portfolio.Revealer.AnimateOnScroll` | script.js:93-107 | the pass appends exactly the scroll-path timers to the pending list, already animated elements included, and adds no class |
| `Portfolio.Revealer.OnIntersection` | script.js:400-408 | the callback appends exactly the observer-path timers and adds no class |
| `Portfolio.Revealer.FireTimer` | script.js:102-104 | a timer adds its target to the animated set and is removed from the pending list; the set never shrinks, and firing for an element already animated leaves it unchanged |
| `Portfolio.StepFacts` | script.js:132-141 | a notify while ticking changes nothing; a notify while idle sets ticking and requests one frame; a frame while ticking runs one pass and clears ticking; both keep the throttle invariant |
| `Portfolio.RunKeepsInv` | script.js:131-142 | after any sequence of notifies and frames at most one frame is pending, and one is pending exactly while ticking |
| `Portfolio.RunCountsPasses` | script.js:131-142 | passes never exceed the frames served, and passes plus pending requests never exceed the notifications |
| `Portfolio.NotifiesWhileTicking` | script.js:133 | notifications while a frame is pending have no effect |
| `Portfolio.BurstThenFrame` | script.js:131-142 | from idle, n ≥ 1 notifications followed by one frame run exactly one pass and leave the throttle idle |
| `Portfolio.ScrollHandler.constructor` | script.js:131 | the throttle starts idle with no frame requested |
| `Portfolio.ScrollHandler.Notify` | script.js:132-142 | the handler's new throttle state is `AfterNotify` of the old one and keeps the invariant |
| `Portfolio.ScrollHandler.FireFrame` | script.js:134-139 | with a request pending, the frame runs the three passes on the layout sampled at that moment and clears ticking; with none, nothing changes |
| `Portfolio.ScrollHandler.RunPasses` | script.js:135-137 | the three passes: active links as `ActiveAfter`, navbar scrolled iff scrollY > 50 (the threshold of updateNavbarBackground, script.js:83), the scroll-path timers appended and no class added; the same three calls run once at load (script.js:147-149) |
| `Portfolio.PushDropOldestKeepsRecent` | script.js:597-601 | push then shift-when-over-capacity on the window of the most recent items gives the window of the most recent items of the longer history, of at most the capacity |
| `Portfolio.JoinInjective` | script.js:603 | for non-empty lists of comma-free strings, equal `join(",")` results mean equal lists |
| `Portfolio.KonamiStepMeaning` | script.js:596-607 | with comma-free key codes, a keydown fires exactly when the ten most recent codes since the last reset are the konami sequence, and then empties the buffer; otherwise the buffer is those ten most recent codes |
| `Portfolio.KonamiDetector.OnKeyDown` | script.js:596-607 | the buffer is always the most recent at most ten codes since the last reset, in arrival order; it fires iff their join equals the sequence's join (iff they equal the sequence, for comma-free codes), then resets and counts the activation |
| `Portfolio.MouseTrail.OnMouseMove` | script.js:463-477 | on narrow screens nothing changes; otherwise the trail is the twenty most recent accepted points in arrival order, with only the oldest dropped |
| `Portfolio.EmailShape` | script.js:204-207 | the regex accepts s iff s has no whitespace, exactly one "@" that is not first, and a "." at least two after the "@" and before the last character |
| `Portfolio.ScanEmail` | script.js:204-207 | the one-pass scanner answers true exactly when the regex accepts the string |
| `Portfolio.SubmitDecision` | script.js:163-173 | a missing or empty field is reported whatever the email is; the invalid-email error comes only with every field filled; otherwise the form is sent |
| `Portfolio.SubmitSendsWellFormed` | script.js:163-173 | the send path is reached iff name and message are filled and the email has no whitespace, a single "@" after its first character and a separating "." |
| `Portfolio.FindSection` | script.js:546 | the first section with the id, or none exactly when no section has it |
| `Portfolio.ScrollToSection` | script.js:545-553 | a scroll target exists iff an element has the id, and it is the top − 80 of the first such element in document order |
| `Portfolio.ShortcutTarget` | script.js:424-451 | exactly the keys "1" to "6" name a section, the d-th key the d-th of home, about, experience, projects, skills, contact |
| `Portfolio.Menu.Toggle` | script.js:8-19 | the menu flag flips and the icon is "close" iff the menu is active |
| `Portfolio.Menu.OnLinkClick` | script.js:22-52 | a link click leaves the menu inactive with icon "menu" and scrolls to the linked section's top − 80 when it exists |
| `Portfolio.Menu.OnKeyDown` | script.js:415-452 | Escape leaves the menu inactive with icon "menu", other keys leave it as it was; Ctrl or Meta with a shortcut key scrolls to its section, anything else scrolls nowhere |

## Left out

- CSS strings, keyframes, inline styles, glow and box-shadow timing (script.js:510-530, 609-655, and the style lines inside the handlers): presentation with no logic.
- Parallax (`scrolled * -0.3`) and the project-card tilt (`/8` rotations): floating-point presentation.
- Mouse-trail rendering (sizes, opacity, blur, DOM elements and their removal): presentation.
- Notification building and removal, `highlightEmptyFields`, `highlightInvalidEmail` and the two-second fake send: DOM and timers with no data logic; the model stops at the send decision.
- `typeWriter` (types an empty string), `trackPerformance` (console and performance API), skill-chip hover effects, the `loaded` class timer and the unload clean-up: no state the rules depend on.
- `addScrollAnimations`: it only decides which elements form the `.scroll-animate` list, which the model takes as input.
- `window.scrollTo` and smooth scrolling: the model returns the scroll target instead of scrolling.
- Real timer and animation-frame timing: timers and frame requests are pending entries; which pending timer fires next is a parameter of `Revealer.FireTimer`.
- The browser's intersection computation (threshold 0.1, root margin): `isIntersecting` and element geometry are inputs.
- Fractional scroll offsets and layout values: the model uses integers.
- A `<section>` without an `id` attribute (which would look up the link `#null`): sections always carry an id string in the model.
- `navLink` lookup by `querySelector` returns the first link with that href; the model identifies links by the section id they target, so two links with the same href are one link.
- `ScrollToSection`, `Menu.OnLinkClick` and `Menu.OnKeyDown` take a list of `Section` values that stands for every element with an id, in document order; the model does not distinguish `<section>` elements from other elements with an id.
- Missing elements and invalid selectors: the model assumes `.navbar`, `#nav-toggle`, `#nav-menu` and the toggle icon exist, and that every id and href is a valid selector. Otherwise the source throws (script.js:8-11, 24-26, 36, 63, 82-84, 416-419). A throw inside the frame callback (script.js:134-139) skips `ticking = false`, so `ticking` stays true and no later frame is requested; a throw at load (script.js:147-149) ends the rest of the set-up. The model's passes always complete, so `ThrottleInv` and `RunKeepsInv` describe only runs without such a throw.
- `e.preventDefault()` on link clicks and shortcut keys (script.js:34, 427-448) is not modelled: it stops the browser's default navigation and has no effect on the modelled state.
