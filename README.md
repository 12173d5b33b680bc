# Dynamic variable resolver

This project models and proves properties of the template-variable resolver of the
voice agent (`livekit-voice-agent/VariableHandler/DynamicVariableHandler.py`).
It covers the following parts:

- `DynamicVariableExtractor.extract` finds every `{…}` placeholder with the regular
  expression `\{(.*?)\}`.
- `DynamicVariableHandler` keeps a mutable name-to-value table. It offers:
  - `set_variable` and `get_variable`;
  - `resolve_text`, which substitutes placeholders in one left-to-right `re.sub` pass;
  - `load_and_resolve`, which fills the table from one user's profile record and then
    resolves a greeting and a system prompt.

Files:

- `wrappers.dfy` (`Wrappers`): `Option`, which models Python's optional arguments.
- `seqs.dfy` (`Seqs`): stock facts about concatenation, stated once.
- `values.dfy` (`PyValues`): the scalar values a parsed profile holds (`str`, `int`,
  `bool`, `None`). It models Python's truth test and `str(v)`, and proves that a
  decimal numeral reads back as the same number.
- `extractor.dfy` (`Extractor`): the regular expression as an explicit scanner.
  - At a `{`, `CloseBrace` looks for the first `}` with no newline before it; the group
    may contain further `{` characters.
  - Where no match starts, the scan passes over one character.
  - `Scan` cuts the text into pieces (characters passed over, and matches). `Extract`
    is `findall`: the groups of the matches, in order.
- `resolver.dfy` (`Resolver`): `re.sub` with the `replace_variable` callback. Each match
  is replaced either by `str(value)`, when the value is truthy, or by the literal
  `{name}`.
- `handler.dfy` (`Handler`): the `DynamicVariableHandler` class.
  - Its `variables` field is a `map`, which `SetVariable` reassigns in place.
  - `LoadAndResolve` makes the same six `SetVariable` calls as the source, then
    resolves both templates.
  - `Populate` is the pure function that specifies the table after those calls.
  - Reading the profile file enters the model as a `FileOutcome`: missing, unparsable,
    or the parsed store.

Three facts about the code shape the model:

- `extract` returns a list with duplicates kept (`findall`): `"{a}{a}{b}"` gives
  `[a, a, b]`.
- `load_and_resolve` always sets the same six names: `user_name` and five profile
  fields. The set does not depend on the templates.
- The record's `expiry_date` value is stored under the name `expiry_data`. A
  `{expiry_date}` placeholder therefore never receives it, and `{expiry_data}` does.

## Model

| member | source | states |
|---|---|---|
| PyValues.Truthy | livekit-voice-agent/VariableHandler/DynamicVariableHandler.py:44 | the `or` fallback's truth test: a value is falsy exactly when it is `""`, `0`, `False` or `None` |
| PyValues.Decimal | livekit-voice-agent/VariableHandler/DynamicVariableHandler.py:44 | `str` of a non-negative int is a non-empty run of digits with no leading zero (except `"0"`) |
| PyValues.DecimalRoundTrip | livekit-voice-agent/VariableHandler/DynamicVariableHandler.py:44 | reading back the digits `str` writes gives the number again |
| PyValues.IntToString | livekit-voice-agent/VariableHandler/DynamicVariableHandler.py:44 | `str` of an int is non-empty and starts with `-` exactly for negative numbers |
| PyValues.IntRoundTrip | livekit-voice-agent/VariableHandler/DynamicVariableHandler.py:44 | `int(str(i)) == i`: the substituted numeral denotes the stored int |
| PyValues.Stringify | livekit-voice-agent/VariableHandler/DynamicVariableHandler.py:44 | `str(v)` is empty only for the empty string |
| Extractor.CloseBrace | livekit-voice-agent/VariableHandler/DynamicVariableHandler.py:7 | where the lazy group `(.*?)` stops after a `{`; characterised by `CloseBraceSpec` (first `}`, no newline before it, and None exactly when every `}` has a newline before it) |
| Extractor.CloseBraceSpec | livekit-voice-agent/VariableHandler/DynamicVariableHandler.py:7 | the lazy group stops at the first `}`, and only if no newline comes before it; when there is no match, every `}` has a newline before it |
| Extractor.Front | livekit-voice-agent/VariableHandler/DynamicVariableHandler.py:7 | the piece the regex takes at the front of the text: a match when one starts there, else one character; characterised by `FrontCovers` |
| Extractor.FrontCovers | livekit-voice-agent/VariableHandler/DynamicVariableHandler.py:7 | a match covers exactly `{group}` of the text, and its group holds no `}` and no newline |
| Extractor.Scan | livekit-voice-agent/VariableHandler/DynamicVariableHandler.py:7 | the left-to-right run of the pattern over the whole text; characterised by `ScanMatchPrefix`, `ScanCharPrefix`, `ScanUnmatchedBrace` and `ScanLiteralPrefix` (which together fix every step), `ScanRendersText` and `ScanNamesClean` |
| Extractor.ScanRendersText | livekit-voice-agent/VariableHandler/DynamicVariableHandler.py:7 | the scan loses nothing: its pieces put back together are the scanned text |
| Extractor.ScanNamesClean | livekit-voice-agent/VariableHandler/DynamicVariableHandler.py:7 | no captured group holds a `}` or a newline |
| Extractor.MatchNamesMembers | livekit-voice-agent/VariableHandler/DynamicVariableHandler.py:11 | a name is returned exactly when the scan holds a match with that group |
| Extractor.Extract | livekit-voice-agent/VariableHandler/DynamicVariableHandler.py:9-11 | no returned name contains `}` or a newline |
| Extractor.ExtractEmptyIff | livekit-voice-agent/VariableHandler/DynamicVariableHandler.py:9-11 | `extract` returns nothing exactly when no `{` is followed by a `}` on the same line |
| Extractor.CloseBraceAfterName | livekit-voice-agent/VariableHandler/DynamicVariableHandler.py:7 | after `{`, a clean name followed by `}` closes the group right there |
| Extractor.ScanMatchPrefix | livekit-voice-agent/VariableHandler/DynamicVariableHandler.py:7 | a placeholder at the front is the first match, and the rest is scanned on its own |
| Extractor.ScanCharPrefix | livekit-voice-agent/VariableHandler/DynamicVariableHandler.py:7 | a character other than `{` at the front is passed over |
| Extractor.ScanUnmatchedBrace | livekit-voice-agent/VariableHandler/DynamicVariableHandler.py:7 | a `{` that nothing closes on its line is passed over like any character |
| Extractor.ScanLiteralPrefix | livekit-voice-agent/VariableHandler/DynamicVariableHandler.py:7 | text without `{` is passed over character by character, and the rest is scanned on its own |
| Extractor.ExtractMatchPrefix | livekit-voice-agent/VariableHandler/DynamicVariableHandler.py:11 | the groups of `{name}` + rest are `name` followed by the groups of rest |
| Extractor.ExtractLiteralPrefix | livekit-voice-agent/VariableHandler/DynamicVariableHandler.py:11 | text without `{` contributes no group |
| Extractor.ExtractKeepsDuplicates | livekit-voice-agent/VariableHandler/DynamicVariableHandler.py:11 | `"{a}{a}{b}"` gives `[a, a, b]`: left to right, duplicates kept |
| Extractor.Placeholder | livekit-voice-agent/VariableHandler/DynamicVariableHandler.py:44 | the literal `{name}` the callback falls back to, and the text a match covers; `FrontCovers` and `ScanMatchPrefix` tie it to the pattern |
| Extractor.ExtractEmptyName | livekit-voice-agent/VariableHandler/DynamicVariableHandler.py:7 | `"{}"` yields the empty name |
| Extractor.ExtractInnerBrace | livekit-voice-agent/VariableHandler/DynamicVariableHandler.py:7 | `"{{a}"` is one match whose group is `"{a"` |
| Extractor.ExtractNewlineBreaksMatch | livekit-voice-agent/VariableHandler/DynamicVariableHandler.py:7 | `"{a\n}"` yields nothing, because the group does not match a newline |
| Resolver.Lookup | livekit-voice-agent/VariableHandler/DynamicVariableHandler.py:36 | `dict.get`: the stored value, or `None` when the name is absent; `GetVariable`'s contract states it for the handler's table |
| Resolver.Replacement | livekit-voice-agent/VariableHandler/DynamicVariableHandler.py:42-44 | `replace_variable`: `str(v)` for a truthy value, else the literal `{name}`; characterised by `ResolvePlaceholder` and `ResolveMatchPrefix` |
| Resolver.Resolve | livekit-voice-agent/VariableHandler/DynamicVariableHandler.py:46 | `re.sub` with `replace_variable`; characterised by `ResolveMatchPrefix`, `ResolveLiteralPrefix`, `ResolveCharPrefix` and `ResolveUnmatchedBrace` (which fix every step), `ResolveKeepsFalsy` and `ResolveReadsOnlyExtracted` |
| Resolver.ResolveTemplate | livekit-voice-agent/VariableHandler/DynamicVariableHandler.py:38-46 | an absent or empty text resolves to `""`; any other text goes through `re.sub` |
| Resolver.ResolveKeepsFalsy | livekit-voice-agent/VariableHandler/DynamicVariableHandler.py:42-46 | a text whose extracted names are all unset or falsy comes back unchanged |
| Resolver.ResolveWithoutPlaceholder | livekit-voice-agent/VariableHandler/DynamicVariableHandler.py:42-46 | a text with no `{…}` match comes back unchanged, whatever the table holds |
| Resolver.ResolveEmptyTable | livekit-voice-agent/VariableHandler/DynamicVariableHandler.py:42-46 | with an empty table every text comes back unchanged |
| Resolver.ResolveReadsOnlyExtracted | livekit-voice-agent/VariableHandler/DynamicVariableHandler.py:42-46 | the result depends only on the values of the names `extract` finds in the text |
| Resolver.ResolveCharPrefix | livekit-voice-agent/VariableHandler/DynamicVariableHandler.py:46 | a character other than `{` at the front is copied |
| Resolver.ResolveLiteralPrefix | livekit-voice-agent/VariableHandler/DynamicVariableHandler.py:46 | text without `{` is copied as it is, and the rest resolves on its own |
| Resolver.ResolveMatchPrefix | livekit-voice-agent/VariableHandler/DynamicVariableHandler.py:42-46 | a leading placeholder becomes the callback's value, and the rest resolves on its own: inserted text is not scanned again |
| Resolver.ResolveUnmatchedBrace | livekit-voice-agent/VariableHandler/DynamicVariableHandler.py:46 | a `{` not closed on its line is copied |
| Resolver.ResolvePlaceholder | livekit-voice-agent/VariableHandler/DynamicVariableHandler.py:42-44 | `{name}` becomes `str(v)` for a truthy value `v`, and stays literal when the variable is unset, `None`, `0`, `""` or `False` |
| Resolver.ResolveTextThenPlaceholder | livekit-voice-agent/VariableHandler/DynamicVariableHandler.py:42-46 | plain text followed by a placeholder keeps the text and replaces the placeholder |
| Resolver.ZeroKeepsPlaceholder | livekit-voice-agent/VariableHandler/DynamicVariableHandler.py:44 | a variable set to `0` leaves `{x}` literal |
| Resolver.SinglePass | livekit-voice-agent/VariableHandler/DynamicVariableHandler.py:46 | a value that looks like a placeholder is inserted as it is, not expanded again |
| Handler.LoadUserData | livekit-voice-agent/VariableHandler/DynamicVariableHandler.py:17-28 | a missing or unparsable file gives the empty store; a parsed file gives its contents |
| Handler.UserRecord | livekit-voice-agent/VariableHandler/DynamicVariableHandler.py:56 | `all_user_data.get(user_name, {})`: the user's record, or the empty record for an unknown user; `Populate`'s contract states what the six calls read from it |
| Handler.Populate | livekit-voice-agent/VariableHandler/DynamicVariableHandler.py:55-64 | the table gains exactly the six names: `user_name` is the user, `expiry_data` is the record's `expiry_date`, the other four are the record's fields (`None` when absent), and every other name is unchanged |
| Handler.DynamicVariableHandler.constructor | livekit-voice-agent/VariableHandler/DynamicVariableHandler.py:14-15 | a new handler has an empty table, so every lookup gives `None` |
| Handler.DynamicVariableHandler.GetVariable | livekit-voice-agent/VariableHandler/DynamicVariableHandler.py:34-36 | the stored value, or `None` for a name never set |
| Handler.DynamicVariableHandler.SetVariable | livekit-voice-agent/VariableHandler/DynamicVariableHandler.py:30-32 | upsert: the name now maps to the value, and every other lookup is unchanged |
| Handler.DynamicVariableHandler.ResolveText | livekit-voice-agent/VariableHandler/DynamicVariableHandler.py:38-46 | the result is the resolution of the text against the current table; the method cannot modify the table |
| Handler.DynamicVariableHandler.LoadAndResolve | livekit-voice-agent/VariableHandler/DynamicVariableHandler.py:48-70 | the new table is `Populate` of the old one, and the pair is (resolved greeting, resolved prompt), with `""` for an absent or empty template |
| Handler.UserNameResolves | livekit-voice-agent/VariableHandler/DynamicVariableHandler.py:59 | after loading, `{user_name}` becomes the user identifier, unless the identifier is `""` |
| Handler.FieldResolves | livekit-voice-agent/VariableHandler/DynamicVariableHandler.py:61-64 | a field copied under its own name resolves to the record's value when truthy, and stays literal otherwise |
| Handler.ExpiryDateStaysLiteral | livekit-voice-agent/VariableHandler/DynamicVariableHandler.py:60 | on a fresh handler, `{expiry_date}` stays literal whatever the record holds |
| Handler.ExpiryDataGetsExpiryDate | livekit-voice-agent/VariableHandler/DynamicVariableHandler.py:60 | `{expiry_data}` is the placeholder that receives the record's `expiry_date` |
| Handler.UnreadableFileKeepsPlaceholders | livekit-voice-agent/VariableHandler/DynamicVariableHandler.py:19-28 | with the file missing or unparsable, every profile placeholder stays literal on a fresh handler |
| Handler.AliceGreeting | livekit-voice-agent/VariableHandler/DynamicVariableHandler.py:55-70 | a user with an empty record: `"Hi {user_name}"` gives `"Hi alice"`, and an absent prompt gives `""` |
| Handler.BobPolicy | livekit-voice-agent/VariableHandler/DynamicVariableHandler.py:62 | a string field is substituted: `"Policy {policy_number}"` gives `"Policy P123"` |
| Handler.BobExcess | livekit-voice-agent/VariableHandler/DynamicVariableHandler.py:64 | an int field is substituted as its numeral: `"Your excess is {excess_amt}"` gives `"Your excess is 500"` |
| Handler.CarolGreeting | livekit-voice-agent/VariableHandler/DynamicVariableHandler.py:56-59 | a user absent from the store still has their name substituted |
| Handler.CarolBirthDate | livekit-voice-agent/VariableHandler/DynamicVariableHandler.py:56-61 | for a user absent from the store, `{date_of_birth}` stays literal and nothing fails |

## Left out

- Reading the profile file (`os.path.exists`, `open`, `json.load`) and the printed warnings are I/O. The model takes the outcome of that read as a `FileOutcome` input.
- Profile values are restricted to `str`, `int`, `bool` and `None`. JSON floats (and Python's float formatting in `str`), lists and nested objects are not modelled.
- A JSON file whose top level is not an object, or whose user record is not an object, makes the source raise at `.get` (lines 56-64). The `Profiles` type admits only well-shaped stores, so that path is not modelled.
- `set_variable` accepts any Python object. The model's values are the scalars above.
- PyValues.IntToString: it is total, whereas Python 3.11 and later raise `ValueError` from `str(i)` for an int of more than 4300 digits. Such a value can only arrive through a direct `set_variable`; `json.load` rejects it, and the file then counts as unparsable.
- Strings holding lone surrogates (`"\ud800"`, which JSON can carry into a Python `str`) are not representable: a Dafny `char` is a Unicode scalar value.
- Unicode: characters are compared as code points. `.` excludes only `\n`, as in Python's default regex flags. There is no other normalisation.
- The rest of the repository (agent wiring, prompts, retrieval helper, web playground) is not part of this model.
