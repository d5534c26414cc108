# PurchaseForm: a verified model of the game-purchase recipient form

`PurchaseForm` is the React component of the Game Market front end where a
buyer chooses who receives a game. The buyer can tick themselves and friends
as recipients, subject to the game's minimum age. The buyer can also open an
"Invite friends" section, type comma-separated email addresses and tick two
acknowledgements. The component never edits the purchase draft it is given.
Every handler builds a new draft and passes it to `onChange`, or sets a
piece of its own state: the age alert, whether the invite section is open,
and the list of friends it loaded.

This project models that logic in Dafny and proves what it does:

- `PurchaseTypes` (types.dfy) holds the draft (`Purchase`), the game and its
  restrictions, and the user record. It also holds the two JavaScript
  truthiness tests the component applies. A `minAge` counts only when it is
  present and not 0. An `age` counts only when it is present and not 0.
- `Recipients` (recipients.dfy) models `toggleUser` as a pure function from
  the draft and the click to either a new draft or an alert. It also models
  the "checked" test of each recipient box.
- `JsText` (jstext.dfy) holds the two JavaScript string operations the
  component uses: `split` on one character (line 78) and `>` on strings
  (line 59). The `>` operator compares UTF-16 code units, so the model
  encodes strings to UTF-16 explicitly and proves the encoding injective.
  `Join`, `FirstIndex` and `LastIndexOf` are helper functions used to define
  and prove these. `LastIndexOf` also fixes where the address pattern at
  line 81 is split.
- `EmailSyntax` (email_syntax.dfy) models the address regular expression.
  It is written as recursive predicates that split the token at its last
  `@`. The project proves that this split agrees with the pattern's own
  existential reading.
- `EmailExtraction` (email_extraction.dfy) models the email field's change
  handler. It is a method with the source's loop over the split tokens,
  proved against a filter function.
- `FriendOrder` (friend_order.dfy) models the comparator passed to
  `friends.sort`, and an in-place sort of an array with that comparator.
- `PurchaseForm` (purchase_form.dfy) holds the two acknowledgement handlers
  and the controls the invite section offers. Its class `FormSession` keeps
  the component state (`ageAlert`, `inviteActive`, `friends`) and the
  handlers that overwrite it.
- `Sequences` (sequences.dfy) holds the generic `Filter` shared by
  `Array.prototype.filter` at line 44 and the push loop at lines 80-86,
  with its lemmas.

Where the written description of the system and the code differ, the model
follows the code:

- Ticking an eligible person who is already listed appends the id again.
  The ids form a list, not a set.
- Duplicate email addresses are kept.
- A valid address is not always read back by itself. The pattern lets a
  quoted local part hold a comma, but the text is split on every comma
  first. So `","@a.bc` is valid, yet the field keeps nothing from it (see
  `EmailExtraction.QuotedCommaNotReadBack` and
  `EmailExtraction.QuotedCommaSample`). An address reads back as itself
  when it holds no comma (`EmailExtraction.ExtractSingle`).
- The text is split on `,` and no token is trimmed. `"x@y.com, z@q.net"`
  keeps only `x@y.com`, because the second token starts with a space (see
  `EmailExtraction.SpaceAfterCommaDropsAddress`).

## Model

All source paths refer to `src/components/PurchaseForm/PurchaseForm.tsx`.

| member | source | states |
|---|---|---|
| Recipients.Evaluate | src/components/PurchaseForm/PurchaseForm.tsx:36-42 | A game without a truthy `minAge` admits everyone. Under a truthy `minAge`, a person of unknown age needs an age. A person of known age is eligible exactly when the age is at least `minAge`. |
| Recipients.Without | src/components/PurchaseForm/PurchaseForm.tsx:44 | The filtered ids no longer contain the removed id. |
| Recipients.AddRecipient | src/components/PurchaseForm/PurchaseForm.tsx:37 | The new ids are the old ids (absent read as empty) followed by the new id: one longer, same prefix. Every other field is unchanged. |
| Recipients.RemoveRecipient | src/components/PurchaseForm/PurchaseForm.tsx:44 | Absent ids stay absent. Present ids lose the id. Every other field is unchanged. |
| Recipients.Toggle | src/components/PurchaseForm/PurchaseForm.tsx:34-46 | Unticking always emits a draft. Ticking emits a draft exactly when the person is eligible. Otherwise the result is one of the two alert texts. |
| Recipients.IsCheckedIffListed | src/components/PurchaseForm/PurchaseForm.tsx:54 | A recipient box is checked exactly when its id is among the current ids. The length test adds nothing. |
| Recipients.TickAcceptedIff | src/components/PurchaseForm/PurchaseForm.tsx:35-37 | A tick is accepted exactly when `minAge` is absent or 0, or the age is present, not 0 and at least `minAge`. |
| Recipients.AcceptedTickAppends | src/components/PurchaseForm/PurchaseForm.tsx:37 | An accepted tick lists the old ids plus the new id. The id's count grows by one, even if it was already listed, and the box becomes checked. |
| Recipients.TickTwiceListsTwice | src/components/PurchaseForm/PurchaseForm.tsx:37 | Ticking an eligible person twice lists the id twice more. |
| Recipients.RefusedTickAlert | src/components/PurchaseForm/PurchaseForm.tsx:38-42 | A refused tick reports a missing age when the age is absent or 0. Otherwise it reports an under-age person. |
| Recipients.UntickRemovesEveryCopy | src/components/PurchaseForm/PurchaseForm.tsx:44 | Unticking leaves absent ids absent. It keeps the other ids in order with their counts, and leaves the box unchecked, whether or not the person is eligible. |
| Recipients.UntickIdempotent | src/components/PurchaseForm/PurchaseForm.tsx:44 | Unticking twice equals unticking once. |
| Recipients.TickThenUntick | src/components/PurchaseForm/PurchaseForm.tsx:37-44 | Ticking an unlisted eligible person and then unticking them restores the ids. |
| Sequences.Filter | src/components/PurchaseForm/PurchaseForm.tsx:44 | The result is no longer than the input, and every kept element passes the test and comes from the input. |
| Sequences.FilterConcat | src/components/PurchaseForm/PurchaseForm.tsx:80-86 | Filtering distributes over concatenation. This is the step the push loop takes per token. |
| Sequences.FilterPrefixStep | src/components/PurchaseForm/PurchaseForm.tsx:80-86 | Filtering one more element of the prefix appends that element exactly when it passes. |
| Sequences.FilterIsSubsequence | src/components/PurchaseForm/PurchaseForm.tsx:44 | The filtered sequence is a subsequence of the input, so order is kept. |
| Sequences.FilterCount | src/components/PurchaseForm/PurchaseForm.tsx:44 | A passing element keeps all its copies. A failing one keeps none. |
| Sequences.FilterIdempotent | src/components/PurchaseForm/PurchaseForm.tsx:44 | Filtering twice equals filtering once. |
| Sequences.FilterAllPass | src/components/PurchaseForm/PurchaseForm.tsx:44 | Filtering a sequence whose elements all pass returns it unchanged. |
| JsText.FirstIndex | src/components/PurchaseForm/PurchaseForm.tsx:78 | The result is the first position of the character, or the length when it is absent. |
| JsText.FirstIndexConcat | src/components/PurchaseForm/PurchaseForm.tsx:78 | The first separator of a concatenation lies in the left part if it has one, and otherwise in the right part, shifted by the left part's length. |
| JsText.LastIndexOf | src/components/PurchaseForm/PurchaseForm.tsx:81 | The result is the last position of the character, or -1 when it is absent. |
| JsText.Split | src/components/PurchaseForm/PurchaseForm.tsx:78 | `split` returns at least one piece, and no piece holds the separator. |
| JsText.SplitJoin | src/components/PurchaseForm/PurchaseForm.tsx:78 | Splitting a join of separator-free pieces gives the pieces back. |
| JsText.JoinSplit | src/components/PurchaseForm/PurchaseForm.tsx:78 | Joining the pieces of a split gives the text back. |
| JsText.CodeUnits | src/components/PurchaseForm/PurchaseForm.tsx:59 | A character below U+10000 is the single unit of its own value, never a surrogate. A character above U+FFFF is a high surrogate (D800-DBFF) followed by a low surrogate (DC00-DFFF), and the pair decodes back to the character. |
| JsText.Utf16 | src/components/PurchaseForm/PurchaseForm.tsx:59 | The UTF-16 encoding has at least one code unit per character, and it is empty exactly for the empty string. |
| JsText.CodeUnitsLength | src/components/PurchaseForm/PurchaseForm.tsx:59 | The first code unit decides whether a character takes one unit or two. |
| JsText.CodeUnitsInjective | src/components/PurchaseForm/PurchaseForm.tsx:59 | Different characters have different code units. |
| JsText.Utf16Decodes | src/components/PurchaseForm/PurchaseForm.tsx:59 | Equal encodings come from equal strings. |
| JsText.Utf16Injective | src/components/PurchaseForm/PurchaseForm.tsx:59 | Different strings have different encodings, so `>` orders any two different names one way or the other. |
| JsText.UnitsLessIrreflexive | src/components/PurchaseForm/PurchaseForm.tsx:59 | No string is greater than itself. |
| JsText.UnitsLessAsymmetric | src/components/PurchaseForm/PurchaseForm.tsx:59 | String `>` never holds both ways. |
| JsText.UnitsLessTransitive | src/components/PurchaseForm/PurchaseForm.tsx:59 | String `>` is transitive. |
| JsText.UnitsLessTotal | src/components/PurchaseForm/PurchaseForm.tsx:59 | Two different code-unit sequences are ordered one way or the other. |
| JsText.CodeUnitOrderDiffersFromCodePoints | src/components/PurchaseForm/PurchaseForm.tsx:59 | `>` follows code units, not code points: U+E000 is greater than U+10000. |
| EmailSyntax.DomainHasNoAt | src/components/PurchaseForm/PurchaseForm.tsx:81 | A text accepted by the domain alternatives contains no `@`. |
| EmailSyntax.DottedDigitsHaveNoAt | src/components/PurchaseForm/PurchaseForm.tsx:81 | The dotted digits of an address literal contain no `@`. |
| EmailSyntax.HostNameHasNoAt | src/components/PurchaseForm/PurchaseForm.tsx:81 | A host name contains no `@`. |
| EmailSyntax.LastAtIs | src/components/PurchaseForm/PurchaseForm.tsx:81 | An `@` with none after it is the one `lastIndexOf` finds. |
| EmailSyntax.DomainFollowsLastAt | src/components/PurchaseForm/PurchaseForm.tsx:81 | If a domain follows an `@`, that `@` is the last one in the token. |
| EmailSyntax.IsEmailIffPatternMatches | src/components/PurchaseForm/PurchaseForm.tsx:81 | Splitting at the last `@` accepts exactly the tokens for which some `@` has a local part before it and a domain after it. |
| EmailSyntax.EmailHasAt | src/components/PurchaseForm/PurchaseForm.tsx:81 | Every accepted token holds an `@`. |
| EmailSyntax.DotAtomHasShape | src/components/PurchaseForm/PurchaseForm.tsx:81 | A dot-atom is non-empty. It has no space or excluded character, does not start or end with `.`, and has no two adjacent dots. |
| EmailSyntax.ShapeIsDotAtom | src/components/PurchaseForm/PurchaseForm.tsx:81 | Every text of that shape is a dot-atom. |
| EmailSyntax.DotAtomIffShape | src/components/PurchaseForm/PurchaseForm.tsx:81 | The `[^…]+(\.[^…]+)*` branch accepts exactly the texts of that shape. |
| EmailSyntax.AcceptedAt | src/components/PurchaseForm/PurchaseForm.tsx:81 | A local part, then `@`, then a domain, is accepted, whichever `@` the pattern matched. |
| EmailSyntax.LeadingSpaceRejected | src/components/PurchaseForm/PurchaseForm.tsx:81 | A token that starts with white space is rejected, because the pattern is anchored and nothing trims. |
| EmailSyntax.NoAtRejected | src/components/PurchaseForm/PurchaseForm.tsx:81 | A token without `@` is rejected. |
| EmailSyntax.TrailingAtRejected | src/components/PurchaseForm/PurchaseForm.tsx:81 | A token that ends with `@` is rejected. |
| EmailSyntax.HostWithTld | src/components/PurchaseForm/PurchaseForm.tsx:81 | A label, `.`, and a top-level label of two or more letters form a host name. |
| EmailSyntax.SampleDomain | src/components/PurchaseForm/PurchaseForm.tsx:81 | `a.bc` is a domain. |
| EmailSyntax.LoneQuoteRejected | src/components/PurchaseForm/PurchaseForm.tsx:81 | A lone `"` is no local part, so `"@d` is rejected for any `d` without `@`. |
| EmailSyntax.SimpleAddressAccepted | src/components/PurchaseForm/PurchaseForm.tsx:81 | An atom, `@`, a label, `.`, and a top-level label of two or more letters form an accepted address. |
| EmailSyntax.AcceptedMatchesPattern | src/components/PurchaseForm/PurchaseForm.tsx:81 | A token accepted at its last `@` is matched by the pattern. |
| EmailSyntax.AcceptedSample | src/components/PurchaseForm/PurchaseForm.tsx:81 | `x@y.com` is accepted. |
| EmailSyntax.RejectedSamples | src/components/PurchaseForm/PurchaseForm.tsx:81 | ` z@q.net`, `not-an-email` and `bad@` are rejected. |
| EmailSyntax.DottedQuadAccepted | src/components/PurchaseForm/PurchaseForm.tsx:81 | Four runs of 1-3 digits, joined by dots and bracketed, form an address literal. No range check is made, so `[999.0.0.1]` passes. |
| EmailSyntax.QuotedLocalPartAccepted | src/components/PurchaseForm/PurchaseForm.tsx:81 | A quoted local part may hold any characters but line terminators, `@` and `,` included, before an `@` and a domain. |
| EmailExtraction.HandleEmailInput | src/components/PurchaseForm/PurchaseForm.tsx:77-88 | The loop's pushed list is the accepted tokens of the split text, in order. It replaces `emails`, and every other field is unchanged. |
| EmailExtraction.ExtractedAreAddresses | src/components/PurchaseForm/PurchaseForm.tsx:78-86 | Every kept address holds an `@`, holds no `,`, and matches the pattern. |
| EmailExtraction.ExtractionKeepsOrderAndCopies | src/components/PurchaseForm/PurchaseForm.tsx:78-86 | The kept addresses are a subsequence of the tokens. Each accepted token keeps all its copies, and each rejected token keeps none. |
| JsText.SplitConcatWhole | src/components/PurchaseForm/PurchaseForm.tsx:78 | When `a` holds no separator, splitting `a,b` gives `a` followed by the pieces of `b`. |
| JsText.SplitConcatStep | src/components/PurchaseForm/PurchaseForm.tsx:78 | When `a` holds a separator, the first piece of `a,b` is the first piece of `a`. |
| JsText.SplitConcat | src/components/PurchaseForm/PurchaseForm.tsx:78 | Splitting `a,b` gives the pieces of `a` followed by the pieces of `b`. |
| EmailExtraction.ExtractConcat | src/components/PurchaseForm/PurchaseForm.tsx:78-86 | The text on either side of a comma is read independently. |
| EmailExtraction.ExtractJoined | src/components/PurchaseForm/PurchaseForm.tsx:78-86 | Comma-joined comma-free addresses are read back exactly, duplicates included. An empty list gives an empty text, which reads back as an empty list. |
| EmailExtraction.ExtractSingle | src/components/PurchaseForm/PurchaseForm.tsx:78-86 | One comma-free address reads back as itself. |
| EmailExtraction.NoAtDropped | src/components/PurchaseForm/PurchaseForm.tsx:78-85 | A comma-free text without `@`, such as a lone `"`, yields no address. |
| EmailExtraction.QuoteAtDomainDropped | src/components/PurchaseForm/PurchaseForm.tsx:78-85 | The text `"@d` yields no address for a comma-free domain `d`. |
| EmailExtraction.QuotedCommaNotReadBack | src/components/PurchaseForm/PurchaseForm.tsx:78-85 | For every comma-free domain `d`, `","@d` is a valid address, yet the field keeps nothing from it: the comma requirement of `ExtractSingle` cannot be dropped. |
| EmailExtraction.QuotedCommaSample | src/components/PurchaseForm/PurchaseForm.tsx:78-85 | `","@a.bc` is valid and yields no address. |
| EmailExtraction.SpaceAfterCommaDropsAddress | src/components/PurchaseForm/PurchaseForm.tsx:78-83 | Whatever follows `, ` is dropped, so `"x@y.com, z@q.net"` keeps only `x@y.com`. |
| EmailExtraction.ExtractRejected | src/components/PurchaseForm/PurchaseForm.tsx:83 | A comma-free malformed token yields nothing. |
| EmailExtraction.MalformedTokenDropped | src/components/PurchaseForm/PurchaseForm.tsx:83-85 | A malformed token between two texts is dropped, and the addresses around it are kept. |
| FriendOrder.CompareByName | src/components/PurchaseForm/PurchaseForm.tsx:59 | The comparator never returns 0. It returns 1 exactly when the first name is greater in code-unit order. |
| FriendOrder.ComparatorOnTies | src/components/PurchaseForm/PurchaseForm.tsx:59 | For equal names, the comparator returns -1 both ways round. |
| FriendOrder.ComparatorAntisymmetric | src/components/PurchaseForm/PurchaseForm.tsx:59 | For different names, swapping the arguments flips the sign. |
| FriendOrder.InOrderTransitive | src/components/PurchaseForm/PurchaseForm.tsx:59 | The order the comparator induces is transitive. |
| FriendOrder.SwappedIsInOrder | src/components/PurchaseForm/PurchaseForm.tsx:59 | A pair the comparator puts out of order is in order when swapped. |
| FriendOrder.UpperCaseFirst | src/components/PurchaseForm/PurchaseForm.tsx:59 | The order is case-sensitive: `Bob` comes before `alice` and not after it. |
| FriendOrder.Swap | src/components/PurchaseForm/PurchaseForm.tsx:59 | Two elements trade places, the rest stay, and the contents are a permutation. |
| FriendOrder.InsertLast | src/components/PurchaseForm/PurchaseForm.tsx:59 | Inserting the next element keeps the prefix sorted, leaves the suffix alone and permutes the array. |
| FriendOrder.SortByName | src/components/PurchaseForm/PurchaseForm.tsx:58-59 | After sorting in place, the array is ordered by the comparator and is a permutation of what it held. |
| PurchaseForm.SetAcknowledgeInvite | src/components/PurchaseForm/PurchaseForm.tsx:94 | The invitation acknowledgement becomes the given value, and every other field is unchanged. |
| PurchaseForm.SetAcknowledgeInviteAge | src/components/PurchaseForm/PurchaseForm.tsx:99 | The age acknowledgement becomes the given value, and every other field is unchanged. |
| PurchaseForm.AcknowledgementsIndependent | src/components/PurchaseForm/PurchaseForm.tsx:94-99 | The last click on a box decides its flag, and clicks on the two boxes commute. |
| PurchaseForm.InviteControls | src/components/PurchaseForm/PurchaseForm.tsx:74-100 | The email field and the invitation box are shown exactly while the section is open. The age box is shown exactly when the section is open and `minAge` is truthy. |
| PurchaseForm.AgeBoxMatchesRestriction | src/components/PurchaseForm/PurchaseForm.tsx:36-38 | For a person of unknown age, the age box is offered exactly on the games where ticking that person is refused. |
| PurchaseForm.FormSession.constructor | src/components/PurchaseForm/PurchaseForm.tsx:17-19 | The state starts with no friends, an empty alert and the invite section closed. |
| PurchaseForm.FormSession.ReceiveFriends | src/components/PurchaseForm/PurchaseForm.tsx:26 | `setFriends` stores a fresh array that holds the fetched list. |
| PurchaseForm.FormSession.ToggleUser | src/components/PurchaseForm/PurchaseForm.tsx:34-46 | The source's branches emit exactly the draft `Toggle` gives, or set the alert to `Toggle`'s message and emit nothing. An emitted draft leaves the previous alert in place. |
| PurchaseForm.FormSession.SetInviteActive | src/components/PurchaseForm/PurchaseForm.tsx:72 | Only `inviteActive` changes, so no draft is emitted and the emails and acknowledgements stay as entered. |
| PurchaseForm.FormSession.SortFriends | src/components/PurchaseForm/PurchaseForm.tsx:58-59 | The loaded friends array is sorted in place by name and is a permutation of what it held. |

## Left out

- Rendering is not modelled: the JSX, the `Checkbox`/`TextInput`/`Loading` widgets, the stylesheet and the loading branch (lines 30-32). Only the choice of invite controls is modelled (`InviteControls`).
- The friends fetch (lines 24-28) is not modelled, because it is network I/O through `APIContext`. Only its effect, `setFriends`, is modelled (`FormSession.ReceiveFriends`). The order in which two fetches resolve is not modelled.
- The React context lookups (lines 21-22) and the unused `buyStatus` prop are not modelled. The current user is just one more `UserShortInfo` passed to `Toggle`, and its box uses the same `IsChecked` test (line 54).
- React's batching and re-rendering are not modelled. Each handler is modelled against the draft `value` of the render it belongs to.
- `Purchase`, `UserShortInfo`, `Game` and `BuyStatus` come from `src/data/types`, which is not part of this model. Their fields are taken from their use in the component, and ids are strings.
- JavaScript numbers are modelled as integers. NaN, fractional ages and fractional `minAge` are not represented.
- Strings are sequences of Unicode scalar values, so lone UTF-16 surrogates cannot be represented. For well-formed strings, matching the pattern on scalars agrees with matching on code units, because no character class of the pattern names a surrogate.
- `\s` is modelled by the ECMAScript WhiteSpace and LineTerminator code points, listed explicitly in `EmailSyntax.IsSpace`.
- `.` is modelled as "not a line terminator".
- FriendOrder.SortByName: this is an insertion sort that swaps exactly when the comparator returns 1, not the engine's own `Array.prototype.sort`. So only sortedness and permutation are stated. The order among friends with equal names is unspecified, because the comparator returns -1 both ways round and the result depends on the engine.
- FormSession.SortFriends requires that the friends have been loaded. The source only reaches the sort after the `!friends` early return.
- The current user's box is rendered before the friends and is not part of the sorted array.
- Apart from `QuotedCommaSample`, samples of the handler on literal texts are not proved as concrete evaluations. They follow from the general lemmas (`ExtractConcat`, `ExtractSingle`, `SpaceAfterCommaDropsAddress`, `MalformedTokenDropped`) applied to the sample addresses in `AcceptedSample` and `RejectedSamples`.
