# Electoral-district list and node edit dialog

A Dafny model of two components of an election-administration dashboard:

- **The electoral-district list** (`List` in `src/components/ElectorateDistrict/List.tsx`).
  - It is given the fetched districts, a status tab (`all`, `active`, `inactive`) and the page's loading flag.
  - It filters the districts for the tab.
  - It renders one of four things: a table with a header, one row per listed district and a counting footer; a "Loading..." message; an empty-state prompt with a Create trigger; or nothing.
  - Each row holds the name, the voter count, a status badge, the creation time, a link to the district's polling divisions, an Edit control on the `all` and `active` tabs, and exactly one of Suspend or Recover.
- **The node edit dialog** (`Edit` in `src/components/Node/Edit.tsx`).
  - It is a form over a node's `name` and `url`.
  - The name is validated against `required|min:2|max:100` and the url against `min:4|max:255`.
  - Its submit handler either shows the validation messages, or sends an `update` carrying the node's id, status and creation time with the edited fields.
  - When `update` succeeds, it shows a success notification, closes the dialog and refreshes the parent list. When it fails, it shows an error notification and leaves the dialog open. Either way the loading flag is cleared.

## Modules

- `optional.dfy` (`Optional`): the `Option` type.
- `text.dfy` (`Text`): splitting strings at a separator, and cutting at the first separator.
- `decimal.dfy` (`Decimal`): a non-negative integer written as decimal text and read back. `District.id` is assumed to be such a number; the link writes it with JavaScript's number-to-string conversion.
- `query_string.dfy` (`QueryString`): a reader that only splits a search string into key/value pairs: it drops the leading `?`, splits at `&` and cuts each part at its first `=`, decoding nothing. The row link's round trip is proved against this reader.
- `validation_rules.dfy` (`ValidationRules`): the rule strings used by the dialog, read into `Required`/`Min`/`Max` rules, and their length semantics.
- `district_list.dfy` (`DistrictList`): the filter, as a function and as the loop the component runs, and the rendered view with its header, rows and footer.
- `node_edit.dfy` (`NodeEdit`): the dialog state, the submit handler, and sessions of user events.

Three behaviours of the list component are worth stating on their own:

- **Link on the `inactive` tab.** Only the Edit cell depends on the tab. The link cell is rendered in every row (`List.tsx:96-111`), while the header drops its Electorate column on the `inactive` tab (`List.tsx:64-70`). So an inactive-tab row has one cell more than the header, and the link sits under the Suspend column. `DistrictList.InactiveRowOverflows` and `DistrictList.RowAlignedIff` state this.
- **Loading message.** The table is shown whenever the filtered list is non-empty, whatever the loading flag. The loading message only replaces the empty-state prompt (`List.tsx:50`, `146-151`).
- **`inactive` tab while loading.** An empty `inactive` tab renders nothing, even while loading (`List.tsx:146`, `167-169`).

## Model

| member | source | states |
|---|---|---|
| DistrictList.Filtered | src/components/ElectorateDistrict/List.tsx:42-46 | the filtered list is no longer than the items, and every district on it passes the tab's rule |
| DistrictList.FilteredMembers | src/components/ElectorateDistrict/List.tsx:42-46 | a district is listed on a tab exactly when it is one of the items and the tab's rule (all / isActive / !isActive) accepts it |
| DistrictList.FilteredAll | src/components/ElectorateDistrict/List.tsx:43 | the `all` tab lists every item, in order |
| DistrictList.FilteredConcat | src/components/ElectorateDistrict/List.tsx:42-46 | filtering distributes over concatenation, so the relative order of listed items is kept |
| DistrictList.FilteredSplitsItems | src/components/ElectorateDistrict/List.tsx:44-45 | the `active` and `inactive` tabs partition the items: their multisets add up to the items' multiset |
| DistrictList.FilteredLengths | src/components/ElectorateDistrict/List.tsx:42-46 | the `active` and `inactive` tab lengths add up to the `all` tab length |
| DistrictList.FilteredIdempotent | src/components/ElectorateDistrict/List.tsx:42-46 | filtering a filtered list again changes nothing |
| DistrictList.FilteredNonEmpty | src/components/ElectorateDistrict/List.tsx:42-50 | a tab lists something exactly when some item matches it |
| DistrictList.FilterItems | src/components/ElectorateDistrict/List.tsx:42-46 | the item-by-item filter yields the filtered list and the positions it came from: exactly the matching positions, strictly increasing, each listed item the item at its position |
| DistrictList.Header | src/components/ElectorateDistrict/List.tsx:55-80 | Name, Voters, Status, Created At come first; the Electorate and Edit columns are present exactly off the `inactive` tab, in that order at positions 4 and 5; Suspend is last; 7 or 5 columns |
| DistrictList.BadgeFor | src/components/ElectorateDistrict/List.tsx:89-91 | the badge reads "Active"/outline exactly for an active district and "Inactive"/secondary exactly for an inactive one |
| DistrictList.ActionFor | src/components/ElectorateDistrict/List.tsx:120-130 | a row offers Recover exactly for an inactive district and Suspend exactly for an active one |
| DistrictList.RowCells | src/components/ElectorateDistrict/List.tsx:84-131 | a row has 7 cells on the `all` and `active` tabs and 6 on the `inactive` tab |
| DistrictList.RowFor | src/components/ElectorateDistrict/List.tsx:84-85 | the row of a district is keyed by the district's id and holds that district's cells for the tab |
| DistrictList.RowShape | src/components/ElectorateDistrict/List.tsx:96-131 | every row starts with the name, voter count, status badge and creation time cells, has the link at position 4 on every tab, an Edit cell holding the row's own district at position 5 exactly off the `inactive` tab, and its single action cell last |
| DistrictList.RowAlignedIff | src/components/ElectorateDistrict/List.tsx:55-131 | a row lines up cell-for-column with the header exactly on the `all` and `active` tabs |
| DistrictList.InactiveRowOverflows | src/components/ElectorateDistrict/List.tsx:64-111 | on the `inactive` tab a row has one cell more than the header, and the link falls under the Suspend column |
| DistrictList.FooterFor | src/components/ElectorateDistrict/List.tsx:139-142 | the footer counts the listed districts and uses the plural noun exactly when more than one is listed |
| DistrictList.Render | src/components/ElectorateDistrict/List.tsx:50-169 | a table exactly when some item matches the tab, with that tab's header, one row per listed district in order, and the footer that counts them with the singular or plural noun; otherwise the loading message exactly while loading off the `inactive` tab, the empty state with Create("Election") when not loading, and nothing on the `inactive` tab |
| DistrictList.TabsShareRows | src/pages/ElectionParty.tsx:47-64 | for three tabs rendered over one fetched list, laid out as the party page lays out its own list, the `all` tab shows one row per item, and the `active` and `inactive` rows add up to the `all` rows whatever the loading flag |
| DistrictList.TabRowsAgreeWithTab | src/components/ElectorateDistrict/List.tsx:84-131 | every row on the `active` tab has the Active badge and offers Suspend; every row on the `inactive` tab has the Inactive badge, offers Recover and has no Edit cell |
| DistrictList.LinkSearch | src/components/ElectorateDistrict/List.tsx:99-102 | the search string is `?district=`, then the decimal id, then `&name=` and the unencoded name: its prefix, the id segment and the rest are each stated, and its length is 16 characters more than the id and the name together |
| DistrictList.LinkParams | src/components/ElectorateDistrict/List.tsx:99-102 | the split-only reader applied to the link's search string gives `district` = the decimal id first and `name` = the name up to its first `&` second |
| DistrictList.LinkDistrictRecovered | src/components/ElectorateDistrict/List.tsx:101 | the `district` parameter the split-only reader takes from a row link gives back the district's id |
| DistrictList.LinkNameRecoveredIff | src/components/ElectorateDistrict/List.tsx:101 | the `name` parameter the split-only reader takes from a row link is the district's name exactly when the name has no `&` |
| Decimal.FromNat | src/components/ElectorateDistrict/List.tsx:101 | the id's text is never empty, holds only digits and has no leading zero unless it is `0`; `ToNatFromNat` reads it back as the id |
| Decimal.ToNatFromNat | src/components/ElectorateDistrict/List.tsx:101 | the decimal text of an id reads back as that id |
| ValidationRules.ParseRulesText | src/components/Node/Edit.tsx:84 | a rule string written from a non-empty rule list reads back as that list |
| ValidationRules.NameRuleTextMeaning | src/components/Node/Edit.tsx:84 | `required\|min:2\|max:100` reads as Required, Min(2), Max(100) |
| ValidationRules.UrlRuleTextMeaning | src/components/Node/Edit.tsx:118 | `min:4\|max:255` reads as Min(4), Max(255) |
| ValidationRules.NameValid | src/components/Node/Edit.tsx:81-85 | the name passes its rules exactly when it has 2 to 100 characters, under either blank policy |
| ValidationRules.UrlValid | src/components/Node/Edit.tsx:118 | the url passes exactly when it has 4 to 255 characters, or is empty and the validator skips blank values |
| NodeEdit.Init | src/components/Node/Edit.tsx:21-25 | the form starts with the node's own name and url, closed and idle |
| NodeEdit.FieldsValid | src/components/Node/Edit.tsx:30 | the form passes exactly when the name has 2 to 100 characters and the url has 4 to 255 characters, or is empty and the validator skips blank values |
| NodeEdit.Payload | src/components/Node/Edit.tsx:33-39 | the payload keeps the node's id, status and creation time and carries the form's name and url; it equals the node exactly when neither field was edited |
| NodeEdit.UneditedPayloadIsItem | src/components/Node/Edit.tsx:27-39 | submitting the form as first rendered, when the node's own fields pass the rules, calls `update` with the node unchanged |
| NodeEdit.HandleSubmit | src/components/Node/Edit.tsx:27-51 | `update` is called exactly when both fields pass; otherwise only the messages are shown. The payload keeps id, status and creation time and carries the edited fields. Loading is set during the call and cleared after it. The fields are untouched. Refresh happens once exactly on success. Success closes the dialog with a success toast; failure keeps it open with an error toast |
| NodeEdit.Step | src/components/Node/Edit.tsx:27-123 | opening or closing (line 54) sets the dialog's open flag, typing replaces exactly the field typed into (lines 89-90, 122-123), and a submit is the submit handler; only a submit calls `update`, and no other event notifies, refreshes or calls `showMessages` (the per-field `showMessageFor` calls of lines 91, 93, 124 and 126 are not modelled) |
| NodeEdit.RunInvariant | src/components/Node/Edit.tsx:27-51 | over any event sequence from an idle state: it ends idle, each `update` call yields one notification, refreshes equal success notifications, and every payload is an acceptable edit of the node |
| NodeEdit.SessionFromInit | src/components/Node/Edit.tsx:20-54 | a session from the first render ends idle and refreshes once per success notification, never more often than `update` was called |

## Left out

- `formattedDate` (`List.tsx:20-34`): locale date and time formatting. The creation time is carried as an opaque string.
- Rendering details: CSS classes, responsive visibility, labels and icons. The model keeps which cells and columns exist and in what order.
- The validator library (`simple-react-validator`) is not part of this model.
  - Its reading of `required`, `min` and `max` on text is modelled as length bounds.
  - Whether it checks `min`/`max` on an empty value is a `BlankPolicy` parameter, with both readings proved.
  - "Blank" means the empty string; whitespace trimming is not modelled.
  - Per-field message visibility (`showMessageFor`, `onBlur`) is not modelled. `showMessages` on an invalid submit is the `messagesShown` flag.
- The HTML `required` attribute on both inputs (`Edit.tsx:75`, `112`) would let the browser block a form with an empty url before `handleSubmit` runs. Browser form validation is not modelled.
- String lengths are counted in `char`s; JavaScript counts UTF-16 code units.
- The `update` service call, the toast library and the dialog widget are not part of this model. The outcome of `update` is a parameter of the submit, and a toast is a value of the transition.
- The `await` inside `handleSubmit` is modelled as one atomic transition, with the awaited state exposed as `inFlight`. Events arriving while an update is pending, such as a second submit, are not modelled.
- `District.id` is assumed to be a non-negative integer number, written in decimal; the district model module that declares its type is not part of this model. JavaScript's number-to-string conversion of negative, fractional or very large ids is not modelled.
- The receiving page of the row link is not part of this model. The link's round trip is proved against a reader that only splits at `&` and `=`. A decoding reader, such as `URLSearchParams`, turns `+` into a space and decodes `%XX` escapes. A browser also cuts the search string at `#`. So a name containing `+`, `%` or `#` can come back changed even when it has no `&`; `LinkNameRecoveredIff` does not cover that.
- The page that renders the district list is not part of this model. `ElectionParty.tsx` renders the party list, not this one. `TabsShareRows` assumes the district page lays out the district list the same way: three tabs (`all`, `active`, `inactive`) over one fetched array and one loading flag (`ElectionParty.tsx:47-64`). The page's fetch-on-mount, loading lifecycle and error toast are not modelled.
- The models and services modules are not part of this model.
- The `Edit`, `SuspendConfirm`, `RecoverConfirm` and `Create` children are cells holding their district, not modelled components.
