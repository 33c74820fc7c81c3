# Activity board: escaping, card markup and notices

This project models the pure part of the browser client of an activity
sign-up service (`src/static/app.js`). The client loads a catalog of
activities and renders one card per activity. A card shows the name,
description, schedule, the number of free places and the participants.
Each participant row has a button that removes that participant. A signup
form registers new participants. Around that pure part the script does
network calls, DOM updates and timers, which are not modelled.

The model has four modules:

- `Escape` (`escape.dfy`): the `escapeHtml` helper.
  - `EscapeHtml` defines it one character at a time.
  - `EscapeChain` is the helper as written: five global `.replace` passes
    (`ReplaceAll`), applied in the order `&`, `<`, `>`, `"`, `'`.
  - `Unescape` decodes the five entities the helper emits.
- `Decimal` (`decimal.dfy`): how a template literal prints the whole number
  `spotsLeft`, and a reader for that text.
- `Card` (`card.dfy`): the spots-left figure, the participants fragment
  and the card markup. It also has readers (`ReadParticipants`,
  `ReadCard`) that take the markup back the way a browser shows it: the
  text of the elements, and the attribute values that `getAttribute`
  returns, with entities decoded. These readers are the model's reference
  for "what the page shows". They are not code of the client.
- `Notice` (`notice.dfy`): what the unregister handler and the signup
  handler do with a reply. This covers the notice text, its class, and
  whether the handler reloads the catalog, resets the form or starts the
  hide timer.

`Wrappers` (`wrappers.dfy`) holds the `Option` type. It is used for JSON
fields that may be absent and for readers that may fail.

The main results:

- The chain of five replacements equals the per-character escape. Doing
  `&` first is what keeps entities from being escaped twice.
- The escaped text contains no `<`, `>`, `"` or `'`. Every `&` in it
  starts one of the five entities. Decoding it gives back the input.
- Each participant item reads back as the participant's email, both as
  text and as `data-email`, with the activity name as `data-activity`.
  These are the values the unregister handler sends to the server.
- A whole card reads back as its activity's fields and the unclamped
  figure `max_participants - |participants|`.
- The tag and quote characters of a card depend only on how many
  participants it has. Server-supplied text cannot change them.

## Model

| member | source | states |
|---|---|---|
| `Escape.EscapeChar` | src/static/app.js:105-109 | each of the five special characters becomes a `&`…`;` entity whose only `&` is its first character; any other character is kept; no entity holds `<`, `>`, `"` or `'` |
| `Escape.EscapeHtml` | src/static/app.js:103-110 | the escaped text holds no `<`, `>`, `"` or `'`, and is never shorter than the input |
| `Escape.EscapeChain` | src/static/app.js:104-109 | the helper as written, five global replacements in the order `&`, `<`, `>`, `"`, `'`: its output holds no `<`, `>`, `"` or `'`; `ChainEqualsEscape` shows it equals the per-character escape |
| `Escape.ReplaceAll` | src/static/app.js:105-109 | a global one-character `.replace` leaves no occurrence of the character when the replacement has none, and changes nothing when the character is absent |
| `Escape.ChainEqualsEscape` | src/static/app.js:103-110 | the five passes in the source's order (`&`, `<`, `>`, `"`, `'`) give exactly the per-character escape |
| `Escape.AmpersandLastDoubleEscapes` | src/static/app.js:105-109 | with `&` replaced after `<`, the input `<` would become `&amp;lt;`, while the source's order gives `&lt;` |
| `Escape.AmpersandsStartEntities` | src/static/app.js:105-109 | every `&` in the output begins one of `&amp;`, `&lt;`, `&gt;`, `&quot;`, `&#039;` |
| `Escape.UnescapeEscape` | src/static/app.js:103-110 | decoding the five entities in the output gives back the input |
| `Escape.EscapeLength` | src/static/app.js:105-109 | output length is input length plus 4 per `&`, 3 per `<` or `>`, 5 per `"` or `'` |
| `Escape.EscapeIdentity` | src/static/app.js:104-109 | the output equals the input if and only if the input holds none of the five special characters |
| `Escape.EscapeConcat` | src/static/app.js:104-109 | escaping works character by character: escaping a concatenation gives the concatenation of the escaped parts |
| `Card.SpotsLeft` | src/static/app.js:24 | the figure plus the number of participants is `max_participants`; it is 0 exactly when the activity is full and negative exactly when more are listed than there are places (no clamping) |
| `Decimal.NatToDecimal` | src/static/app.js:44 | a natural number prints as a non-empty run of digits, with a leading `0` only for zero |
| `Decimal.IntToString` | src/static/app.js:44 | the printed integer starts with `-` exactly when it is negative; every other character is a digit |
| `Decimal.ParseIntToString` | src/static/app.js:44 | reading the printed integer gives back the integer, so a spots-left figure of 0 or below is shown as it is |
| `Decimal.IntToStringInjective` | src/static/app.js:44 | different integers print differently |
| `Card.ParticipantItem` | src/static/app.js:31-33 | an item ends with the unregister button and `</li>`; what it shows is stated by `Card.ReadParticipantItem`, its markup by `Card.ItemMarkupSame` |
| `Card.JoinItems` | src/static/app.js:28-35 | the joined items are empty exactly when there are no participants; their content, one item per participant in list order, is stated by `Card.ReadParticipantsHtml`, their markup by `Card.ParticipantsMarkupSame` |
| `Card.ParticipantsHtml` | src/static/app.js:27-38 | the fragment is the empty-state paragraph exactly when there are no participants, and otherwise a `<ul>` … `</ul>` list; `Card.ReadParticipantsHtml` states what it shows |
| `Card.CardHtml` | src/static/app.js:40-49 | the card ends with the closing of the participants `<div>`; what it shows is stated by `Card.ReadCardHtml`, its markup by `Card.CardMarkupIndependent` |
| `Card.ReadParticipantItem` | src/static/app.js:31-33 | one item reads back with the email as its text and as `data-email`, and the activity name as `data-activity`, all unescaped; reading stops right after the item |
| `Card.ReadParticipantsHtml` | src/static/app.js:27-38 | an empty list gives only the empty-state paragraph, which reads back as no entries and no buttons; otherwise the fragment reads back as one entry per participant, in list order |
| `Card.ReadCardHtml` | src/static/app.js:24-49 | a card reads back as its name, description, schedule, the figure `max_participants` minus the number of participants (not clamped) and its participants' entries |
| `Card.ItemMarkupSame` | src/static/app.js:31-33 | two items have the same tag and quote characters whatever their emails and activity names |
| `Card.ParticipantsMarkupSame` | src/static/app.js:27-38 | two participants fragments with as many participants have the same tag and quote characters |
| `Card.CardMarkup` | src/static/app.js:40-49 | a card's tag and quote characters are those of its template with those of the participants fragment in place; the name, description, schedule and figure add none |
| `Card.CardMarkupIndependent` | src/static/app.js:40-49 | two cards with as many participants have the same tag and quote characters: server text cannot open or close an element or an attribute value |
| `Notice.ClassName` | src/static/app.js:68-76 | the region's class is `success` for a success notice and `error` for an error notice |
| `Notice.OrElse` | src/static/app.js:69-74 | `field || fallback` on a string field gives the field when it is present and non-empty, and otherwise the fallback |
| `Notice.UnregisterOutcome` | src/static/app.js:68-84 | success: `message`, or 'Participant unregistered', as `success`, and the catalog reloads. Failure: `detail`, or 'Failed to unregister participant', as `error`. Failed request: the fixed 'Please try again' text with no hide timer. The text is never blank |
| `Notice.SignupOutcome` | src/static/app.js:129-149 | success: `message` with no fallback, as `success`, and the form is reset but the catalog does not reload. Failure: `detail`, or 'An error occurred', as `error`. Failed request: the fixed 'Please try again' text with no hide timer |
| `Notice.StyleFollowsOk` | src/static/app.js:68-136 | the notice's style depends only on the HTTP `ok` flag, the same way in both handlers |
| `Notice.NoticeTextSource` | src/static/app.js:68-136 | a successful reply shows only `message` (or the fixed text), a failed reply only `detail` (or the fixed text) |
| `Notice.BlankOnlyAfterSignupSuccess` | src/static/app.js:68-136 | the unregister handler always shows a non-empty text; the region can be left blank only by a successful signup whose `message` is absent or empty |
| `Notice.SignupExamples` | src/static/app.js:129-136 | `{message: "Signed up!"}` with 2xx shows it as a success and resets the form; `{detail: "Already registered"}` with 400 shows it as an error and keeps the form |
| `Notice.EmptyFieldFallsBack` | src/static/app.js:69-74 | an empty `message` or `detail` is treated like an absent one: the fallback text is shown |

## Left out

- Network calls (`fetch`) and reading the JSON body are left out. They are host I/O. A request that fails (`fetch` or `json()` rejects) is modelled as the single reply `Unreachable`. A request that never completes is not modelled: the source sets no time-out, so the handler then waits forever and shows no notice. The failed-load paragraph of the catalog load (app.js:96-98) and the `console.error` logging are also left out.
- DOM updates are left out: `innerHTML`, `createElement`, `appendChild`, `querySelectorAll`, `addEventListener`, the `hidden` class toggling and the `<select>` options. `CardHtml` is the markup one iteration puts into its card. The `forEach` over the catalog, which appends the cards and options in catalog order, is not modelled.
- The `confirm` dialog before an unregister request is left out. It is user interaction.
- The `setTimeout` auto-hide is left out. It is timer behaviour, and so is the race between timers on the shared message region. The model only records, as `autoHide`, whether a handler starts the timer.
- `encodeURIComponent` in the request URLs is left out. It is a host built-in.
- `escapeHtml` in the source coerces any value with `String(...)`. The model takes strings only.
- JSON fields `message` and `detail` are modelled as absent or a string. Other JSON values are not modelled.
- A successful signup whose `message` is absent assigns `undefined` to the region's text. The model records this as a `None` text and leaves what the host displays for it unmodelled.
- Strings are sequences of Unicode characters. JavaScript's UTF-16 code units are not modelled.
- `SpotsLeft` takes `max_participants` as an exact integer and subtracts exactly. JavaScript subtracts doubles, so above 2^53 the printed figure can be rounded (2^54 with one participant prints `18014398509481984`). A missing or non-numeric `max_participants`, which prints `NaN spots left`, and a numeric string, which JavaScript coerces, are not modelled.
- `IntToString` covers whole numbers only. The exponent form that JavaScript uses from 1e21 upward is not modelled. Neither are non-integer capacities.
- A missing `participants` list is not modelled. It would make the spots-left subtraction fail before the emptiness check, so the model takes the list as a sequence.
- `Unescape` decodes only the five entities that `escapeHtml` emits. A browser decodes many more. By `AmpersandsStartEntities`, escaped text holds no other entity, so on that text the two decoders agree.
- The backend's signup and unregister rules (duplicate signup rejected, removing an absent participant rejected) are left out. They belong to a server that is not part of this model.
