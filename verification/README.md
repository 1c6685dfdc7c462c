# discolored, modelled in Dafny

discolored is a Discord bot. It watches one channel. When someone posts a colour there, it makes sure the poster has a personal role of that colour. This project models the bot's core, which sits in `main.go`:

- **Reading a colour from a message.** `parseMessageToColor` ignores an empty message. Otherwise it calls `parseHexOrRGBToColor`, which tries six `fmt.Sscanf` formats in order:
  - `%d %d %d`
  - `%d,%d,%d`
  - `#%02x%02x%02x`
  - `%02x%02x%02x`
  - `#%1x%1x%1x`
  - `%1x%1x%1x`

  If none of them scans, it falls back to `parseColornameToColor`. That function deletes every run of characters outside `a`-`z` and looks what is left up in a table of colour names.
- **Packing a colour.** `RGBToRoleColor` packs a colour into the 24-bit integer a role stores.
- **Reconciling the user's role.** `upsertUserRoleColor` works in three steps:
  1. It lists the guild's roles and takes the last one whose name is the user's id.
  2. If there is none, it calls `createUserRole`, which creates a role and then renames it to the user's id.
  3. It calls `updateUserRoleColor`, which recolours the role and then adds it to the user.

The model has these modules:

- `Scan` (scan.dfy) is an interpreter for the part of `fmt.Sscanf` these formats use. A format is a list of directives: a literal character, a space, or a numeric verb with a base and a maximum width.
  - Before a verb it skips blanks. A newline met there is an error.
  - A space in the format needs at least one blank, or the end of the input.
  - `%d` into a `uint8` reads decimal digits. A value over 255 is an error, not a truncation.
  - `%02x` and `%1x` read one digit up to their width in hexadecimal digits.
  - The input after the last directive is never looked at.
  - `Print` is a right inverse of it for well-formed formats whose values fit their widths. `Scan.ScanPrintRoundTrip` proves that scanning what `Print` writes gives those values back.
- `Bits` (bits.dfy) defines `&`, `|` and `<<` on naturals, plus the facts `RGBToRoleColor` needs.
- `Colors` (colors.dfy) holds the three parsers and the packing.
- `ColorProperties` (color_properties.dfy) holds what the parsers accept, in which order, and what they return.
- `Discord` (discord.dfy) models the four platform calls the role reconciler makes as transitions of one guild: its roles in listing order, the roles each member holds, and the id the next role gets.
  - Every call is appended to a log.
  - A fault schedule says which calls the platform refuses. A refused call changes nothing but the log.
- `Reconcile` (roles.dfy) holds `createUserRole`, `updateUserRoleColor`, `upsertUserRoleColor` and the search loop.
- `RoleProperties` (role_properties.dfy) holds, for every error case, the calls made, the errors returned and the resulting guild. It also proves:
  - the guild stays consistent;
  - only the user's role and membership change;
  - a second upsert of the same colour changes nothing.

Three consequences of the code are easy to miss:

- `fmt.Sscanf` into a `uint8` rejects a decimal over 255; it does not truncate it. So "256 0 0" fails both decimal formats and is read by `%02x%02x%02x` as (0x25, 0x6, 0x0). See `ColorProperties.OverflowFallsToHex`.
- `Sscanf` never looks at the input after the last verb, so "255 0 0 please" is red.
- `updateUserRoleColor` overwrites the error of its edit with the result of the member-add (main.go:71-73). A refused recolour is reported as success when the member-add succeeds. See `RoleProperties.UpdateEditErrorDiscarded`.

Because the formats come before the names, and `%1x%1x%1x` reads any three leading hex digits, a message whose first three characters are hex digits never reaches the name table. So the message "cadetblue" is read as "cad", which is (12, 10, 13), whatever the table holds; the same goes for the messages "deeppink" and "deepskyblue". See `ColorProperties.HexPrefixShadowsNames` and `ColorProperties.CadetBlueShadowed`. Shadowing depends on the first characters only. A message reaches the table when its first character is a hex letter a-f, it has at most two leading hex characters, and those are followed by a letter g-z or by the end of the message, such as "corn-flower_blue123" (`ColorProperties.ShortHexRunGoesToNames`). Anything else after a short run may still be read by a format: `%1x` skips blanks before each digit, so "ca dog" is (12, 10, 13) whatever the table holds (`ColorProperties.BlankLetsHex1Continue`), and "ab1x" is (10, 11, 1). So does one that starts with a character no format accepts, such as "-cadetblue", which is looked up as "cadetblue" (`ColorProperties.DashCadetBlueReachesNames`).

## Model

| member | source | states |
|---|---|---|
| Colors.RGBToRoleColor | main.go:66-68 | The masked, shifted and or-ed channels lie in [0, 2^24) and equal r·65536 + g·256 + b, so the masks never change a `uint8` channel. |
| Colors.UnpackPack | main.go:66-68 | Reading the packed integer back as three bytes gives the colour back. |
| Colors.PackUnpack | main.go:66-68 | Every integer in [0, 2^24) is the packing of the colour it unpacks to, so the packing is a bijection onto 24-bit values. |
| Colors.ScanColor | main.go:27 | A `Sscanf` into three operands succeeds exactly when the format scans and has three verbs; the channels are the scanned values in order. |
| Colors.FirstScan | main.go:26-31 | The loop fails only when every format fails. Otherwise it returns the colour of some format, and every format before that one failed. |
| Colors.FirstScanPicksFirst | main.go:26-30 | Whichever format is the first to scan decides the result. |
| Colors.ParseHexOrRGBToColor | main.go:16-32 | The empty string is never a colour. |
| Colors.StripNonLetters | main.go:35-37 | Deleting `[^a-z]+` leaves only the letters a-z and never lengthens the string. |
| Colors.ParseColornameToColor | main.go:34-40 | A name is recognised exactly when its letters are a key of the table, and the colour is the table's entry for them. |
| Colors.ParseMessageToColor | main.go:42-55 | The empty message is rejected. A message is recognised iff it is non-empty and either some format scans it or its letters name a colour. The first format that scans wins. Names are consulted only when no format scans. |
| Scan.Scanf | main.go:27 | A successful scan yields exactly one value per verb of the format. |
| Scan.ScanPrintRoundTrip | main.go:27 | For a format whose verbs cannot run into each other, scanning the printed values, followed by any input the last directive does not absorb, gives the values back. |
| Scan.DigitSpanMaximal | main.go:20-23 | A verb reads every digit it can, up to its width. |
| ColorProperties.DecimalSpacedRoundTrip | main.go:18 | "r g b" in decimal, followed by anything that does not start with a digit, parses to (r, g, b). |
| ColorProperties.DecimalCommasRoundTrip | main.go:19 | "r,g,b" in decimal, followed by anything that does not start with a digit, parses to (r, g, b). |
| ColorProperties.CommasDefeatSpaced | main.go:18-19 | "r,g,b" never scans as "%d %d %d", so it reaches the second format. |
| ColorProperties.HashHexRoundTrip | main.go:20 | "#rrggbb", followed by anything, parses to (r, g, b). |
| ColorProperties.BareHexRoundTrip | main.go:21 | "rrggbb" parses to (r, g, b), although the decimal formats are tried first. |
| ColorProperties.DecimalFormatsNeedSeparators | main.go:18-19 | A message of hex digits only never scans as either decimal format. |
| ColorProperties.HashFormatsNeedHash | main.go:20-22 | Without a leading `#`, neither `#` format scans. |
| ColorProperties.ThreeDigitsDefeatHex2 | main.go:20-21 | Three hex digits never scan as `%02x%02x%02x`, with or without `#`. |
| ColorProperties.HashNibbles | main.go:22 | "#rgb" parses to the three raw nibble values, not to the nibbles doubled. |
| ColorProperties.BareNibbles | main.go:23 | "rgb" parses to the three raw nibble values. |
| ColorProperties.SixDigitExample | main.go:20-21 | (26, 43, 60) prints as "1a2b3c" and parses back from "#1a2b3c" and "1a2b3c". |
| ColorProperties.ThreeDigitExample | main.go:22-23 | "#abc" and "abc" parse to (10, 11, 12). |
| ColorProperties.OverflowRejected | main.go:18-19 | "256 0 0" fails both decimal formats, because 256 does not fit a `uint8`. |
| ColorProperties.OverflowAsHex | main.go:21 | "256 0 0" scans as `%02x%02x%02x` to 0x25, 0x6, 0x0, skipping the blank before the last field. |
| ColorProperties.OverflowFallsToHex | main.go:16-32 | "256 0 0" parses to (37, 6, 0), not to a truncated colour. |
| ColorProperties.StripConcat | main.go:37 | Stripping distributes over concatenation. |
| ColorProperties.StripKeepsOnlyLetters | main.go:37 | Stripping leaves a string unchanged exactly when it holds only letters a-z. |
| ColorProperties.StripIdempotent | main.go:37 | Stripping twice is stripping once. |
| ColorProperties.NonLetterIgnored | main.go:35-38 | Inserting a non-letter anywhere changes neither the key nor the colour looked up. |
| ColorProperties.StripPieces | main.go:37 | Letters, then non-letters, then a rest, strip to the letters and the stripped rest. |
| ColorProperties.NameExample | main.go:34-40 | "corn-flower_blue123" is looked up as "cornflowerblue". |
| ColorProperties.NamesDecideLetterMessages | main.go:42-55 | A message starting with a letter beyond `f` is decided by the name table alone. |
| ColorProperties.FormatsBeforeNames | main.go:44-47 | Three hex digits, with or without `#`, are a colour whatever the name table holds. |
| ColorProperties.NameExampleMessage | main.go:42-55 | "corn-flower_blue123" passes every scan format and is decided by the name table. |
| ColorProperties.ShortHexRunFails | main.go:16-32 | Every scan format fails on a message whose one or two leading hex characters start with a letter a-f and are followed by a letter g-z or by the end of the message. |
| ColorProperties.ShortHexRunGoesToNames | main.go:42-55 | A message whose one or two leading hex characters start with a letter a-f and are followed by a letter g-z or by the end of the message is decided by the name table alone. |
| ColorProperties.BlankLetsHex1Continue | main.go:16-32 | The message "ca dog" is read as (12, 10, 13) for every name table, because `%1x` skips the blank before "d". |
| ColorProperties.HexPrefixByHex1 | main.go:23 | `%1x%1x%1x` reads the first three characters when they are hex digits, whatever follows. |
| ColorProperties.HexPrefixShadowsNames | main.go:16-55 | A message whose first three characters are hex digits is always a colour from the scan formats, and the name table is never consulted. |
| ColorProperties.CadetBlueMissesHex2 | main.go:21 | "cadetblue" fails `%02x%02x%02x`, which reads "ca" and "de" and stops at "t". |
| ColorProperties.CadetBlueShadowed | main.go:16-55 | The message "cadetblue" is the colour (12, 10, 13) for every name table, because `%1x%1x%1x` reads "cad" before any lookup. |
| ColorProperties.NoFormatStartGoesToNames | main.go:16-55 | A message whose first character is neither white space, a hex digit nor `#` fits no scan format and is decided by the name table alone. |
| ColorProperties.DashCadetBlueReachesNames | main.go:16-55 | "-cadetblue" fits no format, is stripped to "cadetblue", and gets the table's entry for "cadetblue". |
| ColorProperties.NotRecognized | main.go:42-55 | "not a color" is rejected when "notacolor" is not a colour name. |
| Reconcile.LastMatch | main.go:83-88 | No match iff no role is named after the user. Otherwise the index names the user and no later role does. |
| Reconcile.FindUserRole | main.go:81-88 | The loop finds nothing iff no role is named after the user. Otherwise it finds a role named after the user with no later match, which is the last match. |
| Reconcile.CreateUserRole | main.go:57-64 | A successful result is a role named after the user, carrying the id the create gave it. |
| Reconcile.UpdateUserRoleColor | main.go:70-74 | Exactly two calls are made, in order: an edit that carries the packed colour and the role's other fields, then a member-add of that role for the user. |
| Reconcile.UpsertUserRoleColor | main.go:76-99 | The calls made before are kept, and the first new call is the role listing. |
| RoleProperties.CreateRefused | main.go:58-61 | A refused create is returned unchanged, and no edit follows. |
| RoleProperties.CreateRenames | main.go:57-64 | A create is followed by an edit of the new role. The edit renames it to the user's id and keeps the colour, hoist, permissions and mentionable flag it was created with. The role stays created even if the rename is refused, and then the error is returned. |
| RoleProperties.CreateUserRoleValid | main.go:57-64 | Creating a user role keeps the guild consistent. |
| RoleProperties.UpdateOutcome | main.go:70-74 | The update succeeds exactly when the member-add does, whatever the edit returned, and fails with the member-add's error. |
| RoleProperties.UpdateEditErrorDiscarded | main.go:71-73 | A refused recolour followed by a successful member-add is reported as success. |
| RoleProperties.UpdateRecolors | main.go:70-74 | The edit sets the packed colour on the role's listing entry and keeps the other fields as the caller's record has them. The member-add gives the role to the user. No other state changes. |
| RoleProperties.UpdateValid | main.go:70-74 | Updating keeps the guild consistent. |
| RoleProperties.UpsertListRefused | main.go:77-80 | When listing the roles fails, that error is returned and no other call is made. |
| RoleProperties.UpsertFoundCalls | main.go:83-98 | When a role is named after the user, the last such role is recoloured and added, with no create, in the order list, edit, member-add. |
| RoleProperties.UpsertFoundState | main.go:83-98 | In that case only the matched role's colour and the user's roles change, and the result is the member-add's. |
| RoleProperties.UpsertCreateRefused | main.go:89-93 | With no match, a refused create is returned, and the guild is unchanged apart from the log. |
| RoleProperties.UpsertRenameRefused | main.go:89-93 | With no match, a refused rename is returned and nothing more is called. The created role stays, under its default name. |
| RoleProperties.UpsertViaCreate | main.go:89-98 | With no match, the created and renamed role is the one updated. |
| RoleProperties.UpsertCreatedCalls | main.go:89-98 | With no match, the calls are list, create, rename, recolour, member-add, and one id is used. |
| RoleProperties.UpsertCreatedRoles | main.go:89-98 | With no match, exactly one role is appended. It is named after the user and carries the colour unless the recolour was refused. |
| RoleProperties.UpsertCreatedMember | main.go:89-98 | With no match, the user gets the new role unless the member-add is refused, and the result is the member-add's. |
| RoleProperties.UpsertCreatesOnlyWhenNone | main.go:83-96 | A role is created iff the listing succeeds and no role is named after the user. |
| RoleProperties.UpsertValid | main.go:76-99 | An upsert, whatever fails, keeps the guild consistent. |
| RoleProperties.UpsertTouchesOnlyTheUsersRole | main.go:76-99 | Whatever fails, roles not named after the user are unchanged, at most one role is appended, and no other member's roles change. A role named after the user changes at most by taking the new colour. |
| RoleProperties.UpsertEstablishes | main.go:76-99 | When none of its calls is refused, the upsert succeeds. The last role named after the user then has the colour and is held by the user. The number of such roles becomes one if there were none and is unchanged otherwise. |
| RoleProperties.UpsertNoop | main.go:76-99 | When the user already holds their role in that colour, an upsert nothing refuses leaves the roles and the members as they were. |
| RoleProperties.UpsertIdempotent | main.go:76-99 | Repeating a successful upsert with the same colour changes no role and no membership. |

## Left out

- `main`, with the channel filter, the bot check, the reactions, the environment variables and the connection, is I/O around the core. It is not modelled. `strings.ToLower`, which it applies before parsing (main.go:112), is the caller's job here. The parsers receive the message already lowered.
- `colornames.Map` is a table from another package. Its contents are not part of this model. It is a parameter, `names`, of every name-parsing member.
- The alpha channel of `color.RGBA` is never read by the code, so `Color` has no alpha.
- The partly filled colour that `parseHexOrRGBToColor` returns on failure is never read by any caller, so failure is `None`.
- `fmt.Sscanf` is modelled only for what these six formats use:
  - the verbs `%d` and `%x` into `uint8`, with or without a width;
  - literals and spaces.

  Other verbs, operand types and format characters are not modelled.
- The Discord platform is modelled as one guild whose calls either take effect completely or are refused, following a fault schedule.
  - Rate limits, partial effects, pagination and the contents of error values are not modelled.
  - A role created from scratch starts as the record `blank`, which stands for the platform's defaults.
  - The platform's order for a new role is taken to be "last".
- Concurrency is left out. The handlers run concurrently in the bot, so two messages from one user can race and create two roles. The model is one call at a time.
- Colors.ParseHexOrRGBToColor: its own contract states only that the empty string is rejected. Its behaviour on each input form is stated by the lemmas of `ColorProperties`.
- Scan.Scanf: its own contract states only that a successful scan yields one value per verb. What it reads is stated by `Scan.ScanPrintRoundTrip` and the `ColorProperties` lemmas.
- Reconcile.CreateUserRole: its own contract states only what a successful result is. The calls, the errors and the resulting guild are stated by `RoleProperties.CreateRefused` and `RoleProperties.CreateRenames`.
- Reconcile.UpdateUserRoleColor: its own contract states only the calls made. The result and the resulting guild are stated by `RoleProperties.UpdateOutcome` and `RoleProperties.UpdateRecolors`.
- Reconcile.UpsertUserRoleColor: its own contract states only the first call of the log. The outcome of each branch is stated by the `RoleProperties` lemmas.
