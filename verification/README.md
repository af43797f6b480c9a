# Portfolio page decision rules

A model of the deterministic rules inside the event handlers of a
single-page portfolio site (`script.js`): the email-address pattern, the
contact-form validation gate, the navbar `scrolled` threshold, the
active-link and nav-dot scroll highlighters, and the project-gallery filter.
Each handler is written as a pure function from the page state it reads
(field strings, section offsets, attribute values, class lists) to the page
state it writes.

Modules:

- `Wrappers` (`wrappers.dfy`): `Option`, standing for the `null` that
  `getAttribute` and `FormData.get` return for an absent value. `Option`
  equality mirrors `===` on those results (`null === null` holds).
- `Dom` (`dom.dfy`): class lists as sets of names; `SetClass` is the
  `classList.remove` / `classList.add` pair the handlers use.
- `Email` (`email.dfy`): the pattern `^[^\s@]+@[^\s@]+\.[^\s@]+$` as a
  predicate on strings (`MatchesPattern`), its structural reading
  (`WellFormed`), the proof that the two agree, and a linear scanner that
  decides the pattern. JavaScript's `\s` is the fixed ECMAScript set of
  WhiteSpace and LineTerminator code points (`IsSpace`).
- `ContactForm` (`contact_form.dfy`): the submit handler up to the simulated
  send.
- `Navigation` (`navigation.dfy`): the navbar threshold and the active-link
  highlighter, a left fold over the sections in document order.
- `NavDots` (`nav_dots.dfy`): the nav-dot highlighter, a left fold over the
  five fixed section ids, with `getElementById` given as a map from ids to
  element boxes.
- `ProjectFilter` (`project_filter.dfy`): the click handler of a filter
  button.

Three consequences of the highlighter code that a reader might not expect:

- A section counts only while the activation point `scrollY + 100` lies in
  the half-open range `[top, top + height)` of its box (script.js:54). A
  section whose top is above the activation point but which ends before it
  does not count.
- With no covering section, every link keeps its previous state, including
  a stale `active` class: the code removes `active` only inside the branch
  for a covering section (script.js:54-61). The nav dots behave the same way
  (script.js:525-536).
- At most one link being active after a scroll that lands inside a section
  is guaranteed when the links name distinct sections
  (`Navigation.OnScrollAtMostOneActive`); two links naming the covering
  section are both active, and no link is active when none names it.

## Model

| member | source | states |
|---|---|---|
| `Dom.SetClass` | script.js:37-41 | after a remove/add pair the class is present exactly when the condition holds, and every other class is kept |
| `Email.IsSpace` | script.js:391 | definition (no contract): the characters JavaScript's `\s` matches, the fixed ECMAScript set of WhiteSpace and LineTerminator code points |
| `Email.MatchesPattern` | script.js:390-393 | definition (no contract): the anchored pattern matches the whole string, that is, an `@` and a later `.` cut it into three non-empty runs of characters that are neither `\s` nor `@` |
| `Email.PatternIffWellFormed` | script.js:390-393 | the pattern accepts a string iff it has exactly one `@`, no white space, a non-empty part before the `@`, and a `.` after the `@` that is neither the first nor the last character of the domain |
| `Email.ScanEmail` | script.js:390-393 | a single scan (reject white space or a second `@`, then look for an inner `.` in the domain) returns true exactly when the pattern matches |
| `Email.Samples` | script.js:391 | `a@b` is rejected, `a@b.com` is accepted, `a@@b.com` and `a b@c.d` are rejected |
| `ContactForm.Submit` | script.js:206-228 | a blank field gives the "fill in all fields" error whatever the email is; otherwise an address the pattern rejects gives the "valid email" error; the sending path (button `Sending...` and disabled) is reached iff all four fields are non-blank, the address matches and the form has a `button[type="submit"]`; without that button a submission that passes both checks stops at script.js:225 with nothing changed |
| `ContactForm.Blank` | script.js:213 | definition (no contract): a field value `!` treats as false, namely `null` or the empty string |
| `ContactForm.SendingMeansWellFormed` | script.js:213-228 | a submission that reaches the sending path has an email with one `@`, no white space, a non-empty local part and a domain with an inner dot |
| `ContactForm.BlankFieldIgnoresEmail` | script.js:213-216 | with the name, subject or message blank, replacing the email does not change the outcome: it stays the "fill in all fields" error |
| `ContactForm.SampleSubmissions` | script.js:213-228 | a complete form with `a@b` is refused with the email error; with `a@b.com` it starts sending, or fails after the gate when there is no submit button |
| `Navigation.NavbarOnScroll` | script.js:36-42 | the navbar has `scrolled` iff `scrollY > 100`, and no other class changes |
| `Navigation.MarkLinks` | script.js:55-60 | after re-marking, a link is active iff its `data-section` equals the section id; attributes and other classes are kept |
| `Navigation.LastCovering` | script.js:49-54 | finds the last section in document order whose `[top, top + height)` holds the position, or reports that none does |
| `Navigation.MarkAfterFold` | script.js:54-60 | marking the links for a covering section after the earlier sections' net effect equals marking for that section alone |
| `Navigation.HighlightAt` | script.js:49-62 | the fold over the sections in document order equals marking the links for the last section whose box holds the position, and leaves the links unchanged when no section does |
| `Navigation.OnScroll` | script.js:45-63 | the handler leaves the links marked for the last section whose box holds `scrollY + 100`, or unchanged when there is none |
| `Navigation.MarkLinksOverwrites` | script.js:55-60 | re-marking for one id and then another equals re-marking for the second |
| `Navigation.OnScrollPicksLast` | script.js:47-61 | after a scroll, the active links are exactly those whose `data-section` equals the id of the last section holding `scrollY + 100`; other classes are kept |
| `Navigation.OnScrollNoHit` | script.js:54-61 | if no section holds `scrollY + 100`, every link keeps its state and no `active` class is cleared |
| `Navigation.OnScrollIdempotent` | script.js:45-63 | handling the same scroll position twice gives the same links as handling it once |
| `Navigation.OnScrollAtMostOneActive` | script.js:45-63 | when links name distinct sections and some section holds the position, at most one link is active afterwards |
| `NavDots.LastShown` | script.js:519-525 | finds the last listed section that exists on the page and holds the position, or reports that none does |
| `NavDots.LightOnly` | script.js:526-534 | after dimming every dot and lighting `dots[k]` when it exists, dot `k` is the only lit dot and every other dot is dim |
| `NavDots.DotsAt` | script.js:519-537 | the fold over the listed ids in order equals lighting only the dot of the last id whose element exists and holds the position, and leaves the dots unchanged when none does |
| `NavDots.OnScroll` | script.js:515-538 | the handler lights only the dot of the last listed section holding `scrollY + 100`, or leaves the dots unchanged when there is none |
| `NavDots.OnScrollLightsLast` | script.js:517-536 | after a scroll whose last covering listed section is the `k`-th, dot `k` is lit and all others are dim |
| `NavDots.OnScrollNoHit` | script.js:525-536 | if no listed section holds `scrollY + 100`, every dot keeps its style |
| `NavDots.OnScrollIdempotent` | script.js:515-538 | handling the same scroll position twice gives the same dots as handling it once |
| `NavDots.OnScrollAtMostOneLit` | script.js:515-538 | a scroll that lands inside a listed section leaves at most one dot lit |
| `ProjectFilter.SelectButton` | script.js:174-175 | exactly the clicked button is active; filters and other classes are kept |
| `ProjectFilter.FilterCards` | script.js:178-192 | a card is hidden iff the filter does not keep its category; categories and other classes are kept |
| `ProjectFilter.Keeps` | script.js:181 | definition (no contract): the filter is `all` or equals the card's category, with two absent attributes comparing equal as `null === null` does |
| `ProjectFilter.Click` | script.js:170-193 | after a click exactly the clicked button is active, and a card is hidden iff the filter is not `all` and differs from the card's category |
| `ProjectFilter.WildcardShowsAll` | script.js:181-182 | the `all` button leaves no card hidden |
| `ProjectFilter.TagShowsExactlyItsCategory` | script.js:181-187 | a specific tag leaves visible exactly the cards of that category |
| `ProjectFilter.LatestClickWins` | script.js:170-193 | two clicks give the same gallery as the second click alone |
| `ProjectFilter.ClickIdempotent` | script.js:170-193 | clicking the same button twice gives the same gallery as clicking it once |

## Left out

- GSAP timelines, ScrollTrigger, parallax and stagger effects (script.js:272-387): their behaviour lives in an external animation library.
- IntersectionObserver reveals, skill bars and counters (script.js:99-162, 241-269): these are browser visibility callbacks, and the counter uses floating-point steps.
- The delayed `display` changes of the filter (script.js:183-190): timer callbacks; only the synchronous `hidden` class is modelled.
- The simulated two-second send, form reset and success toast (script.js:230-235): timer callbacks; the model stops at the button's sending state.
- Toast construction, slide-in and auto-dismiss (script.js:395-461): DOM building and timers; a toast is modelled only as its message and type.
- Nav-dot construction, their initial styles and click targets (script.js:464-512): DOM building and presentation.
- Smooth-scroll click targets (script.js:66-95, 498-507) and the smooth-scroll polyfill (script.js:542-582): they only feed `window.scrollTo`.
- The mobile-menu toggle (script.js:22-33), the loading screen (script.js:588-630) and `throttle` (script.js:633-651): presentation and timing glue outside the decision rules.
- Navigation.NavbarOnScroll, Navigation.OnScrollPicksLast, NavDots.OnScrollLightsLast: `scrollY` and the section offsets are integers; browsers may report fractional `scrollY`, which the model does not represent.
- Unicode: the address pattern is modelled on Unicode scalar values while the regular expression sees UTF-16 code units; no code point outside the Basic Multilingual Plane is white space or `@`, so a run is non-empty in one reading exactly when it is in the other.
- ContactForm.Submit: `FormData.get` can also return a file object for file inputs; the form has none, so fields are strings or absent.
- Navigation.NavbarOnScroll: the model assumes the page has an element with id `navbar`; the source looks it up at script.js:16 and uses it at script.js:38 and script.js:40 without a null check, so without one every scroll event would throw there.
