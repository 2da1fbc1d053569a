# NoSQLSite accordion and URL-fragment logic in Dafny

The site is one React component, `NoSQLSite`. It shows eight claims about NoSQL
databases as an accordion, and at most one section is open at a time. The open section
is kept in step with the URL fragment: opening a section pushes `#<slug>` onto the
browser history, and closing one pushes the bare path. A fragment in the URL, on load or
on a later `hashchange`, opens the section whose slug it names.

This project models the logic behind that behaviour and proves its properties:

- `slug.dfy` (module `Slug`) models `getSectionSlug`, which is
  `tag.toLowerCase().replace(/[^a-z0-9]+/g, '-')`. `Lower` is the lower-casing and
  `Collapse` is the global replace. Each maximal run of characters outside `[a-z0-9]`
  becomes one `-`. The module proves the shape of every slug, proves that `Collapse`
  agrees with an independent reference definition (map each such character to `-`,
  then squeeze runs of `-`), and proves that slugging is idempotent.
- `content.dfy` (module `Content`) holds the eight `claimTag` strings of `content`. It
  models `findSectionIndexBySlug` as a first-match `findIndex` that returns `-1` when
  nothing matches. It computes the slug of every title, proves that the slugs are
  pairwise distinct, and proves that looking up a section's own slug finds that section.
- `accordion.dfy` (module `Accordion`) models the component state as the class `Site`.
  The field `openSection: Option<nat>` is the state `number | null`, and the field
  `history` lists the entries pushed with `history.pushState`. The constructor is the
  initial render followed by the initial call of the hash-change handler.
  `HandleHashChange` and `HandleSectionToggle` are the two event handlers. The browser
  location is passed in as the string `window.location.hash`.

`pushState` does not fire `hashchange`, so a toggle never calls the hash-change handler.
The model keeps the two handlers separate for the same reason.

## Model

| member | source | states |
|---|---|---|
| `Slug.LowerChar` | src/components/NoSQLSite.tsx:15 | `toLowerCase` on one character: an ASCII capital becomes the lower-case letter at the same place in the alphabet, and every other character is unchanged |
| `Slug.Lower` | src/components/NoSQLSite.tsx:15 | the lower-cased title has the title's length, and each character is LowerChar of the title's character at that place |
| `Slug.LowerIdempotent` | src/components/NoSQLSite.tsx:15 | the lower-cased title holds no ASCII capital, so lower-casing it again changes nothing |
| `Slug.Collapse` | src/components/NoSQLSite.tsx:15 | the replace never lengthens its input, and it yields the empty string exactly for the empty input |
| `Slug.CollapseShape` | src/components/NoSQLSite.tsx:15 | every character the replace produces is in `[a-z0-9-]`, and no two `-` are adjacent |
| `Slug.GetSectionSlug` | src/components/NoSQLSite.tsx:15 | a slug uses only `a`-`z`, `0`-`9` and `-`, never has two adjacent `-`, and is no longer than the title (with ASCII lower-casing) |
| `Slug.CollapseIsSqueezedDashOut` | src/components/NoSQLSite.tsx:15 | for every input, the replace equals the reference definition: map each character outside `[a-z0-9]` to `-`, then squeeze each run of `-` to one |
| `Slug.CollapseFixedPoints` | src/components/NoSQLSite.tsx:15 | the replace leaves a string unchanged if and only if the string is in `[a-z0-9-]` with no two adjacent `-` |
| `Slug.SlugIdempotent` | src/components/NoSQLSite.tsx:15 | slugging a slug returns it unchanged |
| `Slug.SlugKeepsAlnums` | src/components/NoSQLSite.tsx:15 | the letters and digits of the slug are those of the lower-cased title, in the same order |
| `Content.FindIndexBySlug` | src/components/NoSQLSite.tsx:18-20 | the result is `-1` exactly when no title slugs to `slug`; otherwise the title at the result slugs to `slug` and no earlier title does |
| `Content.FindSectionIndexBySlug` | src/components/NoSQLSite.tsx:18-20 | over the fixed content, the result is `-1` exactly when `slug` is not one of the eight slugs; otherwise it is the position of `slug` in the slug table |
| `Content.ClaimSlug` | src/components/NoSQLSite.tsx:56-348 | the slug of each `claimTag` is the listed one, e.g. "Scale-Out Architecture" becomes `scale-out-architecture` |
| `Content.SlugsDistinct` | src/components/NoSQLSite.tsx:56-348 | no two sections of the content have the same slug |
| `Content.RoundTrip` | src/components/NoSQLSite.tsx:18-20 | looking up the slug of section `i` returns `i`, for each of the eight sections |
| `Accordion.NextOnToggle` | src/components/NoSQLSite.tsx:44 | a toggle gives `null` exactly when the toggled section was the open one; otherwise the toggled section becomes the open one |
| `Accordion.PushedOnToggle` | src/components/NoSQLSite.tsx:48-53 | a toggle that opens a section pushes `#` followed by that section's slug; a toggle that closes one pushes the bare path |
| `Accordion.FragmentOf` | src/components/NoSQLSite.tsx:25 | `slice(1)` of the location hash: an empty hash gives the empty fragment; otherwise the hash is its first character followed by the fragment |
| `Accordion.HashTarget` | src/components/NoSQLSite.tsx:24-31 | a hash change opens nothing exactly when the fragment is empty or its lookup is `-1`; otherwise it opens a section whose slug is the fragment |
| `Accordion.Site.constructor` | src/components/NoSQLSite.tsx:35 | the initial load starts from `null`, runs the hash-change handler once and pushes nothing |
| `Accordion.Site.HandleHashChange` | src/components/NoSQLSite.tsx:24-31 | an empty or unknown fragment leaves `openSection` unchanged, a known one sets it to its section whatever the prior state, and the history is unchanged |
| `Accordion.Site.HandleSectionToggle` | src/components/NoSQLSite.tsx:43-54 | the new state is `NextOnToggle` of the old one, at most one valid section stays open, and exactly one history entry is appended |
| `Accordion.ToggleTwice` | src/components/NoSQLSite.tsx:43-45 | toggling a section twice from any state other than "that section open" ends closed; from "that section open" it ends open again |
| `Accordion.PushedFragmentReopens` | src/components/NoSQLSite.tsx:48-50 | the fragment a toggle pushes for section `i`, when read by the hash-change handler, opens section `i` |
| `Accordion.DeepLinkOpensFirst` | src/components/NoSQLSite.tsx:24-31 | the location hash `#dynamic-schema-needs` opens section 0 |
| `Accordion.UnknownFragmentOpensNothing` | src/components/NoSQLSite.tsx:24-31 | the location hash `#not-a-real-topic` opens nothing, the same as an empty hash |

## Left out

- Slug.LowerChar: only ASCII capitals are lower-cased. JavaScript's `toLowerCase` also maps other characters, e.g. U+212A KELVIN SIGN becomes `k` and U+0130 becomes two code units. The length bound of `Slug.GetSectionSlug` rests on this: in the source, a title holding U+0130 can slug to a longer string. The eight titles are plain ASCII.
- Strings are sequences of `char`. The source works on UTF-16 code units, and the model does not distinguish the two.
- All JSX rendering, styles, icons, and the prose and code-sample strings of `content` (src/components/NoSQLSite.tsx:7-12, 56-348 apart from `claimTag`, 350-454). They are presentation only.
- Browser and React plumbing is not modelled. This covers `addEventListener`/`removeEventListener`, the `useEffect` lifetime and `window.location.pathname`. The location hash is a parameter, and the bare path is the constant entry `PathOnly`.
- Accordion.Site.HandleSectionToggle: assumes every toggle sees the state left by the previous event. In React, two clicks handled before a re-render could both read the same stale `openSection`.
- Accordion.Site.HandleSectionToggle: requires an index of the content. The component only calls it with indices produced by `content.map`; an out-of-range index would throw in the source when the section opens.
- Copy-to-clipboard and its timed "copied" marker are not part of this component and are not modelled.
