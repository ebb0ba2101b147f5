# USWDS blocks of an AEM Edge Delivery site, modelled in Dafny

The site's blocks turn authored content into USWDS markup. Authors write it in
documents, and it reaches the page as a DOM tree. This project models the rules
behind the blocks, which are small and deterministic, and proves what they promise.
The blocks covered are:

- the footer, `blocks/footer/footer.js`;
- the header, `blocks/header/header.js`;
- the cards, hero, text and title blocks;
- the government banner's accordion.

The content is an abstract DOM tree (module `Dom`). A node is a text node or an
element. An element has a tag, an optional id, a class list, optional `href`/`src`
attributes and an ordered list of children. On that tree the model defines:

- `textContent`, as the text of every text node in document order;
- `querySelector` and `querySelectorAll`, as the first match and the list of
  matches in document order;
- `innerHTML` / `outerHTML`, as a small serialiser;
- `classList.add`;
- the removal of the first match;
- attribute rewrites over a whole subtree.

Each block's `decorate` becomes a pure function. It returns an `Outcome`:

- `Unchanged` when the block returns early;
- `Threw` when the JavaScript would throw before clearing the block;
- otherwise `Rendered`, with what the block builds.

What the block builds is the content that varies (links, texts, classes, the order
of fragments), not the static markup around it. The two pieces of state the header
keeps after `decorate` are transition systems in module `NavState`: the mobile menu
and the submenu accordion. The banner's accordion is in module `Banner`.

Modules and files:

| file | module | models |
|---|---|---|
| wrappers.dfy | Wrappers | `Option`, `Outcome` |
| strings.dfy | Strings | `trim`, ASCII `toLowerCase`, `includes`, `split`/`join`, the section-key normaliser, tag stripping, decimal printing |
| dom.dfy | Dom | the content tree, selectors, document order, `querySelector(All)`, removal, attribute rewrites, class lists, serialisation |
| sections.dfy | Sections | splitting a fragment at its `H2`s (footer) and the header's `h2#brand` / `h2#sections` / `h2#tools` sections |
| footer.dfy | Footer | link relativisation, columns, social links, legal and copyright, identifier, `decorate` |
| header.dfy | Header | AEM URL relativisation, logo, tool links, nav items, `decorate` |
| navstate.dfy | NavState | `toggleMobileNav` and its listeners, `toggleSubmenu` |
| banner.dfy | Banner | the banner's accordion button |
| cards.dfy | Cards | `createUSWDSCard` and `decorate` |
| hero.dfy | Hero | row choice, the four cell parsers, output order |
| text.dfy | TextBlock | paragraph and block classes |
| title.dfy | TitleBlock | heading choice and classes |

## Model

| member | source | states |
|---|---|---|
| Strings.Trim | blocks/footer/footer.js:14 | the result has no white space at either end, and is empty exactly when the input is all white space |
| Strings.TrimIsSlice | blocks/footer/footer.js:14 | trimming removes only white space, and only from the two ends: the result is a slice of the input with white space before and after it |
| Strings.TrimOfTrimmed | blocks/footer/footer.js:14 | a string with no white space at either end is its own trim |
| Strings.TrimIdempotent | blocks/footer/footer.js:14 | trimming twice is trimming once |
| Strings.Lower | blocks/footer/footer.js:14 | `toLowerCase` maps each ASCII capital to its small letter (32 code points on) and the Kelvin sign to `k`; it keeps the length and the white-space positions, leaves no upper-case letter, and changes nothing in an already lower-case string |
| Strings.IndexFromIsFirst | blocks/cards/cards.js:53 | `indexOf` returns the first occurrence at or after the start, and None only when there is none |
| Strings.Contains | blocks/footer/footer.js:228 | `includes` holds exactly when the pattern occurs at some position |
| Strings.FindChar | blocks/header/header.js:15 | the first position of a character at or after the start, with no earlier one; None when there is none |
| Strings.CollapseSpaces | blocks/footer/footer.js:14 | `replace(/\s+/g, '-')` leaves no white space, and every character is a hyphen or comes from the input |
| Strings.CollapseSpacesOfNoSpace | blocks/footer/footer.js:14 | a string without white space is left unchanged by the replacement |
| Strings.CollapseSpacesOfRun | blocks/footer/footer.js:14 | a whole run of white space becomes one hyphen |
| Strings.CollapseSpacesConcat | blocks/footer/footer.js:14 | pieces that do not split a run of white space are replaced independently; with the two lemmas above this fixes the result of every input |
| Strings.SectionKey | blocks/footer/footer.js:14 | a section key has no white space and no upper-case letter |
| Strings.SectionKeyIdempotent | blocks/footer/footer.js:14 | normalising a normalised key gives it back unchanged |
| Strings.SectionKeyOfTrimmed | blocks/footer/footer.js:14 | white space around a heading does not change its key |
| Strings.SectionKeyOfWord | blocks/footer/footer.js:14 | a single word's key is the word in lower case |
| Strings.SectionKeyOfWords | blocks/footer/footer.js:14 | a word, any run of white space and the rest give the lower-cased word, one hyphen, and the key of the rest: `About  MHS` is `about-mhs` |
| Strings.SplitSingle | blocks/cards/cards.js:53-54 | `split('<br>')` yields one piece exactly when the markup has no `<br>` |
| Strings.SplitPiecesAreFree | blocks/cards/cards.js:53 | no piece of the split contains the separator |
| Strings.SplitJoin | blocks/cards/cards.js:53 | joining the pieces with the separator gives back the input |
| Strings.StripTags | blocks/cards/cards.js:55 | `replace(/<[^>]*>/g, '')` leaves no `<` that is followed later by `>`, and keeps only characters of the input |
| Strings.StripTagsOfUntagged | blocks/cards/cards.js:55 | text without such a pair is left unchanged |
| Strings.StripTagsIdempotent | blocks/cards/cards.js:55 | stripping twice is stripping once |
| Strings.StripTagsKeepsText | blocks/cards/cards.js:55 | text before the first `<` is kept as it is |
| Strings.StripTagsDropsTag | blocks/cards/cards.js:55 | a `<`, everything up to the next `>`, and that `>` are removed |
| Strings.StripTagsKeepsUnclosed | blocks/cards/cards.js:55 | a `<` with no `>` after it is kept, with everything after it; with the two lemmas above this fixes the result of every input |
| Strings.NatToString | blocks/header/header.js:355 | the decimal form of an index is a non-empty string of digits, one digit long exactly below ten |
| Strings.NatToStringInjective | blocks/header/header.js:355 | different indices print differently |
| Dom.IndexWhereIsFirst | blocks/cards/cards.js:43 | no node before the first-match position matches |
| Dom.IndexWhereNone | blocks/cards/cards.js:43 | the search runs off the end exactly when no node matches |
| Dom.Filter | blocks/text/text.js:20 | every node `querySelectorAll` returns matches; the list is empty exactly when nothing matches, and otherwise starts at the first match; one node gives itself when it matches and nothing otherwise |
| Dom.FilterMembers | blocks/text/text.js:20 | a node is in the list exactly when it is one of the candidates and matches |
| Dom.FindIsFirstInDocumentOrder | blocks/cards/cards.js:43 | the search finds nothing exactly when no descendant matches, and otherwise finds the first match in document order |
| Dom.QueryIsFirstOfQueryAll | blocks/hero/hero.js:142 | `querySelector` is absent exactly when `querySelectorAll` is empty, and otherwise is its first element |
| Dom.AllHitsAreQueryAll | blocks/footer/footer.js:11-16 | the heading walk visits exactly the nodes of `querySelectorAll`, in the same order |
| Dom.AllHitsFollow | blocks/footer/footer.js:16-21 | the siblings recorded with each hit are exactly the nodes after it in its own parent's child list, which is where `nextElementSibling` walks |
| Dom.FirstChildMatches | blocks/hero/hero.js:122 | everything `div:first-child` selects is a `div` |
| Dom.FirstChildMatchesExactly | blocks/hero/hero.js:122 | `:first-child` selects exactly the matching nodes that are the first element child of the list or of some descendant |
| Dom.FirstChildMatchesHead | blocks/hero/hero.js:122 | when the first element child of the list matches, it is the first node selected |
| Dom.ElementChildren | blocks/cards/cards.js:28 | `children` holds only elements, and only nodes of the child list; one node gives itself exactly when it is an element |
| Dom.ElementChildrenConcat | blocks/cards/cards.js:28 | the element children of two runs of nodes are those of each, in order |
| Dom.ElementChildrenMembers | blocks/cards/cards.js:28 | a node is among the element children exactly when it is in the list and is an element |
| Dom.ChildMatchesExactly | blocks/header/header.js:160 | `parent > child` selects exactly the matching nodes whose parent matches `parent` |
| Dom.RemoveFirstOutline | blocks/cards/cards.js:48-50 | `querySelector(...)?.remove()` leaves the tree unchanged when nothing matches; otherwise it cuts out exactly the first match in document order and its subtree, and every other node stays in order |
| Dom.RemoveFirstMissing | blocks/cards/cards.js:49 | with no match, removal changes nothing |
| Dom.CutStartIsFirstMatch | blocks/cards/cards.js:49 | the cut starts at the position of the first match in document order |
| Dom.CutOutline | blocks/cards/cards.js:49 | the cut removes one node and its subtree from the outline and keeps the rest in order |
| Dom.MapAttrsOutline | blocks/text/text.js:32-45 | rewriting attributes keeps the shape of the tree and relabels each node in place |
| Dom.MapAttrsText | blocks/text/text.js:32-45 | rewriting attributes keeps the text |
| Dom.MapAttrsIdempotent | blocks/header/header.js:9-22 | rewriting twice with an idempotent rewrite is rewriting once |
| Dom.AddClass | blocks/text/text.js:34 | `classList.add` keeps the existing classes in order, at the front, and adds the class and nothing else, at most once |
| Sections.Run | blocks/footer/footer.js:16-21 | the collected siblings are elements and none of them is a stop heading |
| Sections.RunIsElementsBeforeStop | blocks/footer/footer.js:16-21 | the collected siblings are exactly the elements before the first stop heading, in order |
| Sections.Entries | blocks/footer/footer.js:11-14 | one write per `H2` in document order, each under the normalised text of that heading |
| Sections.EntryContentIsRun | blocks/footer/footer.js:16-21 | a section's content is the maximal run of element siblings after its heading and holds no `H2` |
| Sections.LastWins | blocks/footer/footer.js:13-24 | the keys of the sections object are exactly the keys written |
| Sections.LastWriteWins | blocks/footer/footer.js:13-24 | under a repeated key, the content of the last heading is stored |
| Sections.ContentWrapper | blocks/header/header.js:157-165 | the search scope is the children of the first `.default-content-wrapper`; without one, of the first `.section > div`; without both, the fragment itself |
| Sections.ContentWrapperIsSectionDiv | blocks/header/header.js:158-161 | the fallback scope is the children of a `DIV` whose parent has the class `section` |
| Sections.NamedSection | blocks/header/header.js:168-182 | a section is absent without its `h2#id`; when present it is non-empty, and it holds elements that are neither `H2` nor `H1` |
| Sections.NamedSectionIsRun | blocks/header/header.js:173-182 | a section is the elements between its heading and the next `H2`/`H1`, and absent when there are none |
| Footer.AnchorsInConcat | blocks/footer/footer.js:65-67 | the links of a section are the links of each of its elements, one element after another |
| Footer.MakeLinksRelative | blocks/footer/footer.js:33-41 | the rewrite throws exactly when some rewritten `href` cannot be parsed as a URL |
| Footer.RelativiseOnlyTouchesAemLinks | blocks/footer/footer.js:34-39 | only the `href` of anchors containing `.aem.page` changes; text and tree shape stay as they were |
| Footer.PresentFrom | blocks/footer/footer.js:433-437 | the column keys tested are present in the sections and are visited in increasing order |
| Footer.PresentFromComplete | blocks/footer/footer.js:433-437 | no present column key is skipped |
| Footer.ColumnsAreKnown | blocks/footer/footer.js:427-437 | every column carries one of the three fixed headings, with the links of that heading's section |
| Footer.ColumnsInFixedOrder | blocks/footer/footer.js:427-437 | columns come in the order About MHS, Services, Resources |
| Footer.ColumnPresentIffKey | blocks/footer/footer.js:433-437 | a column appears exactly when its key is present, even with empty content |
| Footer.LastMention | blocks/footer/footer.js:147-151 | the last platform in the list that the link mentions, or None when it mentions none |
| Footer.IconWalkPicksLastMention | blocks/footer/footer.js:146-151 | overwriting the icon for every matching entry ends with the last match, or the initial icon when none matches |
| Footer.IconIsLastMentionedPlatform | blocks/footer/footer.js:125-151 | the icon is a platform or `link`; it is `link` exactly when no platform occurs in the link text or the `href`; otherwise it is the platform mentioned last in the list |
| Footer.Descriptions | blocks/footer/footer.js:103-118 | only non-empty descriptions are kept, at most one per element; one element gives its description when it is not empty |
| Footer.DescriptionsConcat | blocks/footer/footer.js:103-118 | the descriptions of two runs of elements are those of each, in order |
| Footer.DescriptionsKept | blocks/footer/footer.js:103-118 | a string is a description exactly when it is not empty and is the trimmed text outside the links of some element |
| Footer.SocialLinks | blocks/footer/footer.js:133-164 | one social link per anchor of the section, in order, with that anchor's `href`, its text as the label, and the icon chosen from its lower-cased trimmed text and `href`; the descriptions are those of the section |
| Footer.SocialLinkIcon | blocks/footer/footer.js:136-151 | each social link's icon is `link` exactly when no platform is mentioned, and otherwise the last platform in the list that is |
| Footer.LegalContent | blocks/footer/footer.js:455-456 | the legal content is `privacy-links`, else `legal-links`, else `legal`, and absent exactly when none of the three is present |
| Footer.CopyrightText | blocks/footer/footer.js:224-231 | the first copyright element's trimmed text when it contains `©` or, in any case, `copyright`; else the default line for the year |
| Footer.CopyrightIsDefaultOrTrimmedLine | blocks/footer/footer.js:224-231 | the copyright text is the default or a trimmed copyright line |
| Footer.Domain | blocks/footer/footer.js:286-294 | the domain is the first element's trimmed text, or the default when that is blank or missing; either way the domain line is never empty and has no white space at either end |
| Footer.Disclaimer | blocks/footer/footer.js:296-303 | the disclaimer is the second element's outer HTML, or the default markup when there is no second element |
| Footer.RequiredLinks | blocks/footer/footer.js:331-370 | the required links are the anchors of the elements from the third on, in order, or exactly the three defaults when there are none |
| Footer.RequiredLinksNeverEmpty | blocks/footer/footer.js:331-370 | the required links are never empty, and replacing the first two elements by any others never changes them |
| Footer.Assemble | blocks/footer/footer.js:426-464 | the footer has the columns as above; the social column exactly when `connect-with-us` is present, built from that section; the secondary section exactly when legal content exists, with the links of that content and the copyright from the `copyright` section; the identifier exactly when `identifier` is present, built from that section |
| Footer.Decorate | blocks/footer/footer.js:386-403 | the block is untouched without a fragment, throws exactly when relativisation throws, and otherwise is assembled from the sections of the relativised fragment |
| Header.AemPath | blocks/header/header.js:15-18 | a matched URL yields a path that starts with `/` |
| Header.PathsDoNotMatch | blocks/header/header.js:15 | a path starting with `/` never matches the pattern |
| Header.AemPathDecomposes | blocks/header/header.js:15-18 | every accepted URL is a scheme, an AEM host and an optional path, and the result is that path or `/` |
| Header.AemUrlIsRewritten | blocks/header/header.js:15-19 | every URL built from a scheme, an AEM host and an empty or `/`-led path without line breaks is accepted and yields that path or `/` |
| Header.RelativiseAttrs | blocks/header/header.js:16-19 | the rewrite changes at most the `href` |
| Header.RelativiseAttrsCases | blocks/header/header.js:10-20 | a non-matching `href` is unchanged; a matching one becomes a path starting with `/` |
| Header.MakeLinksRelativeIdempotent | blocks/header/header.js:9-22 | relativising twice is relativising once; text and tree shape are kept |
| Header.LogoOf | blocks/header/header.js:232-259 | without a brand: a `Home` link to `/` and no image; a brand without a link: a `/` link with the brand's trimmed text; with a link: the brand's first anchor with `title` set to its text; an image exactly when the brand has one, made from its first image |
| Header.ToolIconRules | blocks/header/header.js:279-296 | search icon exactly when the text contains `search`; otherwise the user icon exactly for `sign in` or text containing `login`; otherwise no icon |
| Header.ToolItemOf | blocks/header/header.js:273-300 | a tool item is empty exactly when its `li` has no link, and otherwise holds its first link with that link's icon |
| Header.ToolsOf | blocks/header/header.js:266-303 | the tools are absent exactly without a tools section, empty without a list, and otherwise one item per `li` of the first list, in order |
| Header.SubmenuIdsDistinct | blocks/header/header.js:355-366 | different item positions give different submenu ids |
| Header.DirectChild | blocks/header/header.js:346-347 | `:scope > tag` yields the first child of the item with that tag, and nothing exactly when no child has it |
| Header.StyledSubmenu | blocks/header/header.js:365-371 | the submenu gets class `usa-nav__submenu` and the given id; its tree keeps its shape with every `li` relabelled |
| Header.StyledLink | blocks/header/header.js:375-381 | a plain nav link keeps its tag, id, href and src, gets exactly the class `usa-nav__link`, and holds one attribute-less `SPAN` with the link's text; the span is empty exactly when that text is, and the link's text is unchanged |
| Header.StyledLinkIdempotent | blocks/header/header.js:375-381 | restyling an already restyled link changes nothing |
| Header.NavItemOf | blocks/header/header.js:343-382 | an item throws exactly when it has a direct sub-list but no direct link; it is an accordion exactly when it has both, captioned with the link's text and controlling `extended-nav-section-<index>`, and its submenu is the first direct `ul` restyled with that same id, so the button's `aria-controls` finds it; it is bare exactly when it has neither; a plain item's link is its first direct `a` restyled by Header.StyledLink |
| Header.NavItemsFrom | blocks/header/header.js:342-383 | when no item throws there is one nav item per list item |
| Header.NavItemsFromThrows | blocks/header/header.js:343-358 | the navigation throws exactly when one of its items does |
| Header.NavItemsFromItems | blocks/header/header.js:342-383 | otherwise item `i` is the `i`-th direct `li`, processed at index `i` |
| Header.NavOf | blocks/header/header.js:337-342 | there is no navigation list exactly when the sections part is absent or has no `ul` |
| Header.NavItemAt | blocks/header/header.js:342-347 | item `i` of the navigation comes from the `i`-th direct `li` of the first list |
| Header.NavAccordionIds | blocks/header/header.js:355-366 | the accordion at position `i` controls `extended-nav-section-i`, and no two accordions share an id |
| Header.Decorate | blocks/header/header.js:197-212 | the block is untouched without a fragment, or with neither brand nor sections; it throws exactly when a nav item throws; otherwise it holds the logo, tools and navigation read from the relativised fragment |
| NavState.ToggleMenu | blocks/header/header.js:91-112 | a toggle flips the nav's visibility; afterwards the overlay agrees, `aria-expanded` is `"true"` with overflow hidden when open, and `"false"` with overflow restored when closed |
| NavState.GuardedEventsOnlyClose | blocks/header/header.js:400-412 | Escape and a change to desktop width close an open menu and do nothing to a closed one; other keys and a change to mobile width do nothing |
| NavState.MenuEventPreservesConsistency | blocks/header/header.js:396-412 | every event keeps the overlay, `aria-expanded` and overflow in agreement with the nav's visibility |
| NavState.MenuFromConsistent | blocks/header/header.js:396-412 | from a consistent state, any sequence of events keeps the menu consistent |
| NavState.MenuAlwaysConsistent | blocks/header/header.js:396-412 | from the state `decorate` leaves, the menu is consistent after any sequence of events |
| NavState.ToggleTwice | blocks/header/header.js:96-111 | from a consistent state, two toggles restore an open menu exactly; a closed menu comes back with its overflow emptied |
| NavState.ToggleSubmenu | blocks/header/header.js:117-140 | the pressed button's expanded state is negated and its submenu's `hidden` becomes the old expanded state; every other button is collapsed and its submenu hidden |
| NavState.ToggleSubmenuConsistent | blocks/header/header.js:122-139 | after any toggle each submenu is hidden exactly when its button is collapsed, and at most one is expanded |
| NavState.ToggleSubmenuTwice | blocks/header/header.js:117-140 | toggling the expanded button twice restores the accordion; toggling a collapsed one twice leaves all closed |
| NavState.InitialAccordionConsistent | blocks/header/header.js:354-367 | the accordion as `decorate` leaves it, all collapsed and hidden, is consistent |
| Banner.Click | blocks/banner/banner.js:153-157 | a click negates `aria-expanded` and sets `hidden` to the old expanded state |
| Banner.ClickIsOneButtonAccordion | blocks/banner/banner.js:153-157 | the banner's click is the header accordion's toggle on a single button |
| Banner.ClickMakesConsistent | blocks/banner/banner.js:153-157 | after a click the content is hidden exactly when the button is collapsed |
| Banner.ClickTwice | blocks/banner/banner.js:153-157 | two clicks restore any consistent state |
| Banner.ClicksAlternate | blocks/banner/banner.js:57-75 | starting collapsed and hidden, the banner is expanded exactly after an odd number of clicks, and hidden exactly when collapsed |
| TextBlock.ParagraphClasses | blocks/text/text.js:32-45 | a paragraph keeps its classes in order and gains `usa-prose`; it has `usa-intro` exactly when the block is intro or it had it already, and likewise `text-center` for centred blocks |
| TextBlock.BlockClasses | blocks/text/text.js:47-55 | the block keeps its classes and gains only `text-center`, exactly when it is centred |
| TextBlock.Decorate | blocks/text/text.js:18-56 | the block is untouched exactly when it has no paragraph; it never throws |
| TextBlock.DecorateOnlyAddsClasses | blocks/text/text.js:28-55 | decorating only adds classes: same nodes, same order, same text, every paragraph relabelled in place, other elements unchanged, the block's classes kept |
| TextBlock.StyleParagraphCases | blocks/text/text.js:32-45 | non-paragraphs are untouched; a paragraph's classes are kept and extended as above |
| TextBlock.DecorateIdempotent | blocks/text/text.js:18-56 | decorating a decorated block again gives the same block |
| TextBlock.ParagraphsSurvive | blocks/text/text.js:20-25 | a rewrite that keeps tags keeps whether the block has paragraphs |
| TitleBlock.LevelClasses | blocks/title/title.js:39-40 | for each of `H1`, `H2`, `H3`, centred or not, the classes are `usa-prose`, then `text-center` when centred, then `title-h1`, `title-h2` or `title-h3` |
| TitleBlock.Decorate | blocks/title/title.js:18-50 | the block is untouched exactly when it has no `h1`/`h2`/`h3`; otherwise its only child is that heading with its other attributes and children kept |
| TitleBlock.DecorateKeepsFirstHeading | blocks/title/title.js:20-49 | the only child is the first `h1`/`h2`/`h3` in document order; its classes are exactly `usa-prose`, `text-center` when the block is centred, and its level class; the block keeps its classes and gains `text-center` exactly when centred |
| Cards.LeadOf | blocks/cards/cards.js:41-61 | the card's heading and body never start or end with white space |
| Cards.TrimKeepsNoMarkup | blocks/cards/cards.js:55 | trimming tag-free text keeps it tag-free |
| Cards.LeadFromHeading | blocks/cards/cards.js:43-50 | with a heading element, the heading is its trimmed text; the body is the cell's markup with exactly that heading's subtree cut out |
| Cards.LeadFromLines | blocks/cards/cards.js:52-57 | without a heading but with a `<br>`: the heading is the tag-stripped, trimmed text before the first `<br>`, and so holds no tag; the body is the later pieces joined by spaces and trimmed |
| Cards.LeadFromText | blocks/cards/cards.js:57-59 | without a heading or `<br>`, the heading is the cell's trimmed text and the body is empty |
| Cards.SecondCellPrecedence | blocks/cards/cards.js:64-78 | the second cell supplies the image alone when it has one; otherwise the action when it has a link; otherwise the body, only when the body is empty; it never touches the heading |
| Cards.ApplyThird | blocks/cards/cards.js:81-89 | the third cell sets only the action, and only when none exists yet; an action is missing afterwards exactly when it was missing and the cell has no link |
| Cards.ActionSource | blocks/cards/cards.js:64-89 | the action comes from the second cell's link when it has one and no image, else from the third cell's first link; a row with at most one cell has no action and no image |
| Cards.Parts | blocks/cards/cards.js:93-135 | fragments come in the order header, media, body, footer, and each is present exactly when its field is non-empty |
| Cards.AltTextNonEmpty | blocks/cards/cards.js:111 | the image's alt text is the heading, or `Card image` when there is none, and never empty |
| Cards.Decorate | blocks/cards/cards.js:14-25 | one card per row, in row order |
| Hero.ContentRow | blocks/hero/hero.js:53-56 | the content row is the first row, or the second when the first is a header row |
| Hero.HeaderRowSkipped | blocks/hero/hero.js:53-56 | the second row is used exactly when there is one and the first row is a header row |
| Hero.HeaderRowText | blocks/hero/hero.js:121-124 | a header row has a first `div` cell whose trimmed, lower-cased text starts with `hero` |
| Hero.ParseCallout | blocks/hero/hero.js:129-134 | the callout is the cell's trimmed text, and empty for a missing cell |
| Hero.ParseHeading | blocks/hero/hero.js:139-148 | the heading is trimmed, and empty for a missing cell |
| Hero.ParseHeadingSource | blocks/hero/hero.js:139-148 | the heading is the trimmed text of the cell's first `h1`–`h6` when it has one, else of the whole cell |
| Hero.ParseBody | blocks/hero/hero.js:153-158 | the body is the cell's trimmed markup, and empty for a missing cell |
| Hero.ParseLink | blocks/hero/hero.js:164-185 | a missing cell gives no link |
| Hero.ParseLinkCases | blocks/hero/hero.js:164-185 | with an anchor, the first anchor's `href` and trimmed text; otherwise no link exactly when the cell's text is blank; otherwise that text as the address and `Call to action` as the label |
| Hero.Output | blocks/hero/hero.js:77-108 | the parts come in the order h1, p, a, and each is present exactly when its field is non-empty; the callout is only inside the h1 |
| Hero.CalloutOnlyWithHeading | blocks/hero/hero.js:78-92 | without a heading there is no h1, so the callout is dropped; with both, the h1 carries the callout |
| Hero.Decorate | blocks/hero/hero.js:37-64 | the block is untouched exactly when it has no rows, never throws, and otherwise renders the content of the row after any header row |
| Hero.MissingCells | blocks/hero/hero.js:58-64 | each missing cell yields an empty value |

## Where the blocks throw

Two blocks can throw while decorating, and the model gives each such case its own outcome. The two blocks also rewrite different hosts:

- The header throws a `TypeError` when a nav item has a direct sub-list but no direct link (`blocks/header/header.js:346-358`). Header.NavItemOf returns None for it, and Header.Decorate returns `Threw`.
- The footer's `makeLinksRelative` calls `new URL(href)`, which throws on an `href` it cannot parse (`blocks/footer/footer.js:36-37`). Footer.Decorate returns `Threw` exactly then.
- The footer's rewrite looks only for `.aem.page` (`blocks/footer/footer.js:36`). The header's pattern takes both `.aem.page` and `.aem.live` (`blocks/header/header.js:15`). Each block is modelled as written.

## Left out

- Fragment loading and page metadata (`loadFragment`, `getMetadata`, `window.location`) are I/O. Each `decorate` takes the loaded fragment as an `Option`, and None means no fragment.
- `new URL(href).pathname` in the footer is a foreign URL parser. It is the parameter `urlPath`, and None means the constructor throws.
- `new Date().getFullYear()` is the parameter `year`.
- `createOptimizedPicture` is an external image helper. Only the alt text chosen for it is modelled.
- The `href` and `src` properties resolve against the page's URL. They are modelled as the attribute values, with `""` when absent. This affects the footer's social icon (`blocks/footer/footer.js:148`): JavaScript searches the resolved URL, whose host is lower-cased, so an href `HTTPS://WWW.FACEBOOK.COM/x` on a link reading "Follow us" gets the `facebook` icon there, but `link` in Footer.IconName and Footer.SocialLinkOf, which search the raw attribute.
- Sections.ContentWrapper: `.section > div` is matched only below the fragment's root; a `div` child of the root itself would match if the root carried the class `section`. The root is the element `loadFragment` builds (`blocks/fragment/fragment.js` is not part of this model), and the model takes it to have no classes.
- Event-listener registration, `focus()`, `console` logging, and static markup, SVG and class strings are left out. The listeners appear only as the events of `NavState`.
- The `hidden` property of submenus and of the banner content lives in `NavState`, not in the tree.
- The header's nav items are not written back into the list: the model returns them as `NavItem` values.
- The logo's `HomeLink` records the markup it inserts, not the parsed tree.
- The serialiser used for `innerHTML`/`outerHTML` prints a fixed set of attributes (`id`, `class`, `href`, `src`) and does not escape text.
- Strings.Lower: JavaScript's full Unicode lower-casing is modelled only for the characters that become ASCII letters: `A`–`Z` and the Kelvin sign, which becomes `k`. Other non-ASCII capitals keep their case. The one other capital whose lower case holds an ASCII letter, the dotted capital I, becomes `i` followed by a combining dot, two characters. The blocks compare with ASCII words (`search`, `login`, `copyright`, `hero`, the platform names), none of which holds `i` followed by a combining dot, so every search and section key decides the same; only the non-ASCII text of a key can differ.
- Dom.AddClass: a class list that already holds a duplicate keeps it; a browser's `DOMTokenList` would drop it. The blocks only add classes to freshly built or authored lists without duplicates.
- Header.Decorate: its contract names the logo, tools and nav outcome. The nav items themselves are stated by Header.NavItemOf and Header.NavItemAt.
- An own property named `__proto__` in the footer's section object is not modelled: the map treats every key alike.
