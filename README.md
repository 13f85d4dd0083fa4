# Site script behaviour, modelled in Dafny

This project models the stateful decision rules of the client-side script
of the Child & Family Psychological Services website (`script.js`). Most of
that script connects DOM elements to visual effects. The parts that decide
something have been stated and proved here:

- **Konami code** (`konami.dfy`, module `Konami`). Every key name is pushed
  onto a buffer. The buffer is cut back to its last ten entries. The easter
  egg fires when the buffer, joined into one string, equals the joined
  trigger sequence (↑ ↑ ↓ ↓ ← → ← → b a). The class keeps a ghost history of
  every key received. Its invariant says the buffer is exactly the last
  min(n, 10) keys of that history, in arrival order. The trigger sequence is
  a `const` field, so no method can change it. The comparison is on joined
  strings, not key by key. When every buffered key is one of the trigger
  key names, firing is equivalent to the buffer equalling the trigger
  sequence: no trigger key name is a prefix of another, so joining loses
  nothing. A concrete nine-key buffer shows that with other key names the
  joined comparison also accepts buffers that differ from the trigger
  sequence.
- **Navigation** (`navigation.dfy`, module `Nav`). The header's "scrolled"
  class is set above a scroll offset of 50. The scroll-spy rewrites the
  links' "active" classes with a nested loop over sections and links. The
  model has the links' flags in an array and the loop as written. It proves
  two things. If no section's window holds the offset, no flag changes.
  Otherwise a link is active exactly when its href is `#` plus the id of the
  *last* section, in document order, whose window holds the offset. The
  focus trap in the nav menu redirects Shift+Tab on the first focusable
  element to the last one, and Tab on the last one to the first. In every
  other case it leaves the default alone.
- **Scroll-to-top button** (`scroll_to_top.dfy`, module `ScrollButton`). The
  button is created hidden. It is shown exactly when `pageYOffset` exceeds
  500. Its opacity and visibility always agree.
- **Typed-text options** (`typed_animation.dfy`, module `TypedOptions`).
  The options are the built-in defaults overridden key by key by the
  caller's options (`{ ...defaults, ...options }`).

Scroll offsets (`pageYOffset`, `scrollTop`) are JavaScript doubles. They are
modelled as exact `real`s. Element geometry (`offsetTop`, `offsetHeight`) is
modelled as `int`, as the DOM reports it. DOM reads become parameters: the scroll-spy
receives the sections' geometry and ids and the links' hrefs on every call,
as the script reads them on every scroll event. Class changes become fields
and arrays.

## Model

| member | source | states |
|---|---|---|
| `Konami.Trim` | script.js:592 | `slice(-10)` keeps min(n, 10) entries, and they are the last ones of the input, in order |
| `Konami.Target` | script.js:582 | the trigger sequence has ten keys, none of them empty |
| `Konami.Join` | script.js:594 | `join('')` of no keys is the empty string and of one key is that key |
| `Konami.JoinAppend` | script.js:594 | `join('')` of two buffers one after the other is the two joins one after the other |
| `Konami.TrimAfterPush` | script.js:590-592 | trimming after every push leaves exactly the last ten keys of the whole history |
| `Konami.JoinInjective` | script.js:594 | over the trigger key names, equal `join('')` strings mean equal buffers |
| `Konami.ActivatesExactlyOnTarget` | script.js:594-595 | with only trigger key names buffered, the easter egg fires iff the buffer is the trigger sequence |
| `Konami.JoinedComparisonAcceptsOtherBuffers` | script.js:594 | a nine-key buffer that is not the trigger sequence still has the same joined string |
| `Konami.KonamiCode.constructor` | script.js:580-584 | the buffer and history start empty and the trigger sequence is the ten-key Konami code; `sequence` is a `const`, so no later call changes it |
| `Konami.KonamiCode.CheckCode` | script.js:590-597 | appends the key to the history; the buffer holds the last min(n, 10) keys in order; fires iff the joined buffer equals the joined sequence; the last ten keys being the sequence always fires |
| `Nav.Highlight` | script.js:143-148 | after the inner loop a link is active iff its href is `#` plus the section id |
| `Nav.ScrollTop` | script.js:117 | the scroll offset is `pageYOffset` unless that is 0, then the document's `scrollTop` |
| `Nav.HeaderScrolled` | script.js:119-123 | the header is "scrolled" iff the offset exceeds 50, so never at the top of the page |
| `Nav.Contains` | script.js:138-142 | a section holds the offset only if offsetTop-100 < offset <= offsetTop-100+offsetHeight, which needs a positive height |
| `Nav.StackedSectionsDisjoint` | script.js:137-142 | two sections laid out one below the other never both hold the same offset |
| `Nav.Sweep` | script.js:137-150 | the outer loop keeps one flag per link and leaves the flags unchanged when no section holds the offset |
| `Nav.LastContaining` | script.js:137-142 | finds the last section whose window (offsetTop-100, offsetTop-100+offsetHeight] holds the offset, or reports that none does |
| `Nav.SweepSelectsLastContaining` | script.js:137-150 | the nested loop leaves the flags unchanged when no section matches, and otherwise marks exactly the links of the last matching section |
| `Nav.Navigation.UpdateActiveLink` | script.js:134-151 | given the current section geometry, ids and hrefs, the array of active flags ends unchanged when no section matches, else a link is active iff its href names the last matching section |
| `Nav.Navigation.constructor` | script.js:96-132 | fixes how many sections and links the page has, `lastScrollTop` starts at 0, and the scroll-spy runs once for the current offset and layout |
| `Nav.Navigation.OnScroll` | script.js:115-127 | "scrolled" is set iff the scroll offset (pageYOffset, or the document's when that is 0) exceeds 50; the offset is recorded |
| `Nav.TrapFocus` | script.js:226-244 | redirects iff the key is Tab, the menu has focusables, and Shift+Tab is on the first or plain Tab on the last; the target is the last or first element |
| `Nav.TrapFocusRoundTrip` | script.js:234-244 | Shift+Tab from the first element then Tab from where it lands returns to the first |
| `ScrollButton.ShownAt` | script.js:548 | the button shows iff `pageYOffset` exceeds 500, and whenever it shows the header is "scrolled" too |
| `ScrollButton.ScrollToTop.constructor` | script.js:514-538 | the button starts hidden, with opacity 0 |
| `ScrollButton.ScrollToTop.ToggleVisibility` | script.js:547-555 | shown iff pageYOffset > 500, opacity and visibility kept consistent |
| `TypedOptions.Defaults` | script.js:56-73 | the nine default option keys, six rotating strings, looping on, type speed 50 |
| `TypedOptions.Merge` | script.js:74 | the merged options hold every key of both maps; caller values win, defaults fill the rest |
| `TypedOptions.MergeNoOptions` | script.js:54-74 | with the default empty options the defaults are used unchanged |
| `TypedOptions.TypedAnimation.constructor` | script.js:54-76 | the component's options are the defaults merged with the caller's options |

## Left out

- Preloader timing, AOS initialisation and the Typed.js instance (`init`, `destroy`): timers and third-party libraries.
- Event-listener registration (every `init` method): the model's methods are the handlers, called directly.
- `KonamiCode.activate` and `addRainbowAnimation`: DOM styling, a five-second timer and console output; `CheckCode` returns whether activation happens instead.
- Mobile menu toggling, closing on outside clicks and on Escape, hamburger animation, smooth scrolling on link clicks: DOM effects with no decision beyond "is the menu open".
- `ScrollToTop.scrollToTop` and `handleHover`: a browser scroll call and hover styling.
- Scroll progress bar and parallax (`ScrollEffects`): floating-point division and multiplication producing CSS strings.
- `ParticleAnimation`, `FormHandler`, `VideoPlayer`, `CardObserver`, `LogoAnimation`, `PerformanceMonitor`, `ServiceWorkerManager`, `App`: randomness, intervals, alerts, iframes, IntersectionObserver, logging and composition.
- A missing nav menu is modelled as a menu with no focusable elements: in both cases no Tab handler acts.
- Scroll offsets as exact reals: NaN, infinities and double rounding are not modelled, nor a missing `pageYOffset` (`undefined` in the `||` fallback).
- `TypedOptions.Merge`: caller options whose value is `undefined` (which spread would copy over a default) are not modelled; option values are a small closed datatype.
