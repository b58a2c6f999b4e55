# Panoptikon, modelled and verified in Dafny

Panoptikon edits its own configuration, serialises trees, substitutes templates, and talks
several small protocols. This project models the parts of it that have an exact meaning and
unbounded inputs, and proves that they have that meaning. `dafny verify dfyconfig.toml` checks
the whole project; every file stands on Dafny alone.

## What is modelled

**Editing configuration without losing anything** (`panoptikon-config/src/lib.rs`).
`TomlTree`, `TomlPatchSpec` and `TomlPatch` are the patcher that applies a typed
before/after delta to a concrete tree of tables, inline tables, arrays and arrays of tables.
The loops are methods, in the order of the source, proved against the relation `PatchedNode`;
what the source promises is proved about that relation at every depth. `DotenvLine`, `Dotenv`,
`DotenvReading`, `DotenvDocument`, `DotenvGuarantees` and `DotenvTwice` are the `.env` editor and
the `.env` parser next to it, which were written separately and have to agree. They do for every file except those
with a readable bare `export =` line, or with a readable line behind a byte order mark that is
first or can become first; `EditMeansExactly` says for each edit whether it is among those that go
wrong, and two examples show the gap. An edit repeated on the edited text changes nothing, unless
the source ends in a stray carriage return (`EditingTextTwiceExactly`). `DotenvReading` is the
grammar of hand-written lines, and `ReadsExactly` says that the parser reads that grammar.

**Nix archives** (`scripts/sync-nix-ui-pin.py`). `NarFormat` has the format and a decoder,
`NarWriter` the serialiser that extends one buffer. The two are inverse in both directions.

**Template substitution** (`panoptikon/src/env_template.rs`). `EnvTemplate` says what a text
means by tokenising and then evaluating it; `EnvTemplateLoops` has the scanning loop and the
tree walk, and the recogniser of whole-value bindings from the configuration editor.
`TemplateGrammar` is the language as it is written, part by part, and the proof that exactly its
texts are accepted, with the meaning of their parts.

**Policy tokens, databases and the proxy** (`policy_token.rs`, `policy.rs`, `proxy.rs`,
`config.rs`). `Encodings` writes out decimal, hex and base64url; `PolicyToken` signs and
verifies; `DbPolicy` resolves, lists and rewrites; `Headers` and `Gateway` follow requests
through the policy layer and the proxy, along chains of gateways and across a render. `Admission`,
`DbScoping` and `Forwarding` describe the same from outside: the verdict on a request, the
databases it is given, and the headers that are sent, in terms of what the request says. Policy
names are not compared when a configuration is loaded (config.rs:1321-1356), so a token stands for
the first policy of its name; `AuthorityCarriesAcrossRender` says when that is the right one, and
`SecondOfTwoNamesakes` shows a render where it is not. Prefix templates are validated with one
short user name (config.rs:1696-1705); `EveryUserIsServedExactly` says when that is enough.

**Crash-tolerant extraction** (`panoptikon/src/resources.rs`). `Extraction` is a state machine
over any number of processes, interleaved step by step, each stopped anywhere, with whatever a
failing operation leaves behind; `ExtractionRun` is one run, operation by operation, on a shared
file system, and everything it does is a run of that machine. The comment on `commit_extraction`
promises that a matching destination is not deleted; between the re-check and the removal
nothing enforces that, and `CommitIsSafeExactlyWhenOrderly` says exactly when it holds.

**The inference worker** (`python/inferio_worker/__main__.py`). `Worker` is the request loop
against a specification of whole sessions, for all requests and for implementations that work,
raise, or quit the process.

**Prediction responses** (`panoptikon/src/inferio_client.rs`, written by
`panoptikon/src/inferio/http.rs`). `Multipart`, `MultipartHeaders` and `MultipartOutputs` split
and parse multipart bodies, `MultipartForeign` those of other servers; `PredictResponse` is the JSON form with its error slots.

**The clipboard's URI list** (`panoptikon-clipboard/src/uri.rs`, `payload.rs`). `UriList`.

`Prelude` and `Text` hold shared vocabulary and the string operations of the Rust standard
library that the models use.

Where a source is a loop over mutable state, the model is a loop over mutable state, tied by its
`ensures` to a function or relation; the theorems are about that function or relation. SHA-256,
HMAC, UTF-8 decoding, standard base64, the effective host of a request and the outcome of every
operation that can fail are parameters, so the theorems hold for all of them.

## Model

| member | source | states |
|---|---|---|
| TomlPatch.TomlDocument.PatchValues | panoptikon-config/src/lib.rs:52-60 | fails, changing nothing, exactly when one side is no table; otherwise the document carries every change, agrees with `after` if it agreed with `before`, equals `after` if it equalled `before`, and is unchanged if the two are equal |
| TomlPatch.TomlDocument.constructor | panoptikon-config/src/lib.rs:22-37 | a document starts as the given well-formed tree |
| TomlPatch.PatchTable | panoptikon-config/src/lib.rs:84-150 | in whatever order the keys are walked, dropped keys go, kept entries keep their places, changed ones are patched or inserted, and nothing else moves |
| TomlPatch.DropKeys | panoptikon-config/src/lib.rs:84-101 | exactly the entries with the given keys are removed, in place |
| TomlPatch.PatchNode | panoptikon-config/src/lib.rs:103-127 | tables, inline tables, arrays and arrays of tables are edited in place where both sides allow it; anything else becomes a node that denotes the new value, with its decoration kept |
| TomlPatch.PatchShared | panoptikon-config/src/lib.rs:152-187 | elements both sides have are patched only where they differ, and the surplus is cut |
| TomlPatch.PatchArray | panoptikon-config/src/lib.rs:152-170 | the array has the new length, patched where shared and extended with nodes that denote the new values |
| TomlPatch.PatchArrayOfTables | panoptikon-config/src/lib.rs:189-219 | the same for an array of tables, and the appended tables are numbered after every table that stayed |
| TomlPatch.ItemFromToml | panoptikon-config/src/lib.rs:262-287 | a fresh node denotes the value it was made from, as a section or inline |
| TomlPatch.NewTables | panoptikon-config/src/lib.rs:207-217 | appended tables denote the new values and carry consecutive positions |
| TomlPatch.MaxTablePosition | panoptikon-config/src/lib.rs:221-235 | the largest position anywhere below the tables |
| TomlPatch.AssignTablePositions | panoptikon-config/src/lib.rs:237-251 | only positions change: all tables below are numbered consecutively from `next` |
| TomlPatchSpec.PatchKeepsWellFormed | panoptikon-config/src/lib.rs:84-219 | patching keeps keys distinct and the tree well formed, at every depth |
| TomlPatchSpec.PatchIsExact | panoptikon-config/src/lib.rs:84-219 | a document that agrees with `before` on shared keys agrees with `after` afterwards, at every depth |
| TomlPatchSpec.PatchCarriesChanges | panoptikon-config/src/lib.rs:84-219 | whatever the document held, every changed key is there afterwards and every dropped one is gone, at every depth |
| TomlPatchSpec.PatchOfEqualValue | panoptikon-config/src/lib.rs:84-219 | a document that denotes `before` denotes `after` afterwards |
| TomlPatchSpec.PatchKeepsTheRest | panoptikon-config/src/lib.rs:84-219 | whatever a path reaches without crossing the delta is identical afterwards, and so is all decoration on the way: of every table and array it passes, of the last key and of the keys above it |
| TomlPatchSpec.PatchKeepsDecor | panoptikon-config/src/lib.rs:172-187 | along shared keys and indices, a replaced value keeps the decoration of the old one, and every key on the way keeps its own (also replace_item_preserving_decor, 253-260) |
| TomlPatchSpec.PatchKeepsKeyOrder | panoptikon-config/src/lib.rs:84-150 | in every table at every depth the surviving keys keep their relative order, and new keys come after them |
| TomlPatchSpec.NewKeysAreSections | panoptikon-config/src/lib.rs:84-101 | in every table written as a section, at every depth, what is added under a new key is written as sections too: tables with headers, and non-empty arrays of tables as arrays of such |
| TomlPatchSpec.EmptyDelta | panoptikon-config/src/lib.rs:84-101 | an empty delta leaves a table exactly as it was |
| TomlPatchSpec.AppendedTablesComeLast | panoptikon-config/src/lib.rs:207-217 | appended tables stand after all tables that were kept, in order, until positions run out |
| DotenvDocument.CommentStart | panoptikon-config/src/lib.rs:451-482 | the quote and escape loop finds the comment its recursive reading finds |
| DotenvDocument.RecogniseLine | panoptikon-config/src/lib.rs:424-449 | the editor's view of a line: key, place of the equals sign, suffix |
| DotenvDocument.ParseValue | panoptikon-config/src/lib.rs:559-605 | the quoted, escaped and unquoted forms of a value, and the two errors |
| DotenvDocument.ParseLine | panoptikon-config/src/lib.rs:526-556 | one line of the parser: blank, complaint, or assignment |
| DotenvDocument.Parse | panoptikon-config/src/lib.rs:520-557 | all readable assignments in order, and a numbered complaint for each other line |
| DotenvDocument.DotenvDocument.constructor | panoptikon-config/src/lib.rs:335-358 | the lines, the line ending and the final newline of a source |
| DotenvDocument.DotenvDocument.Apply | panoptikon-config/src/lib.rs:370-401 | the two passes give the applied document; applying again changes nothing; then each set key has one recognised line and each removed key none |
| DotenvDocument.DotenvDocument.RetainLines | panoptikon-config/src/lib.rs:371-391 | the retaining pass rewrites the first line of each set key and drops later and removed ones |
| DotenvDocument.DotenvDocument.AppendMissing | panoptikon-config/src/lib.rs:392-397 | set keys without a line are appended in order |
| DotenvDocument.DotenvDocument.ToText | panoptikon-config/src/lib.rs:408-416 | the rendered text |
| Dotenv.SameLines | panoptikon-config/src/lib.rs:335-358 | editor and parser split every source into the same lines |
| Dotenv.LinesOfTerminated | panoptikon-config/src/lib.rs:408-416 | rendering and splitting again gives the lines back, up to stray carriage returns |
| Dotenv.BomUnveils | panoptikon-config/src/lib.rs:520-525 | skipping a leading byte order mark adds the assignment of a veiled first line, in front, and changes nothing else |
| Dotenv.EditMeansOnLines | panoptikon-config/src/lib.rs:370-401 | on lines without hidden assignments, reading after editing gives the old map overridden by the values, without the removed keys |
| DotenvLine.EncodeEscapesOnce | panoptikon-config/src/lib.rs:484-498 | the chain of replacements escapes each character of a value exactly once |
| DotenvLine.ReadEscaped | panoptikon-config/src/lib.rs:559-605 | the parser reads an encoded value back, whatever follows the closing quote as comment |
| DotenvLine.KeysAgree | panoptikon-config/src/lib.rs:426-431 | editor and parser find the same key, except for a bare `export =` (against 536-539) |
| DotenvLine.HiddenLines | panoptikon-config/src/lib.rs:424-449 | the readable lines the editor does not see are exactly the readable bare `export =` lines |
| DotenvLine.RewrittenIsRead | panoptikon-config/src/lib.rs:385-390 | a rewritten line reads as its key with the new value |
| DotenvLine.RewrittenIsRecognised | panoptikon-config/src/lib.rs:385-390 | a rewritten line is recognised again, with the same key and suffix |
| DotenvLine.AppendedLineReads | panoptikon-config/src/lib.rs:392-397 | an appended line reads as its key and value, and rewriting it changes nothing |
| DotenvLine.SuffixRefound | panoptikon-config/src/lib.rs:451-482 | after any encoded value the comment scanner finds exactly the suffix that was kept |
| DotenvReading.ReadsExactly | panoptikon-config/src/lib.rs:520-605 | a line assigns a value to a name exactly when what is in front of the `=` names the one and what is behind it spells the other: bare up to a comment, literally in single quotes, or with escapes in double quotes, in any white space |
| DotenvReading.RefusesExactly | panoptikon-config/src/lib.rs:559-605 | the value is rejected exactly when text follows the closing quote, or nothing closes it |
| DotenvReading.OtherLines | panoptikon-config/src/lib.rs:526-545 | which lines are blank or comments, which lack a `=`, and which a valid name |
| DotenvReading.OrdinaryLines | panoptikon-config/src/lib.rs:559-605 | `KEY=value`, the same with a comment, and `KEY='value'` read as the value, backslashes and all |
| DotenvReading.SuffixIsKept | panoptikon-config/src/lib.rs:451-482 | behind a hand-written value the editor finds exactly the white space and comment that follow it |
| DotenvReading.LastLineWins | panoptikon-config/src/lib.rs:500-504 | a variable has the value of the last line that assigns it, and none without such a line |
| DotenvReading.LineIsReported | panoptikon-config/src/lib.rs:520-557 | every line that is neither blank nor an assignment is reported, in order and under its own number, and no other is |
| DotenvGuarantees.EditMeansExactly | panoptikon-config/src/lib.rs:370-401 | for one edit of one source: parsing the edited text gives the old variables, overridden and with the removed ones gone, exactly when the edit gets by the overlooked lines: `export` is not removed where a hidden line sets it, nor set above a hidden line with another value, and no veiled line whose variable is removed, or new to the file and not set, comes to the top (against 520-557) |
| DotenvGuarantees.FoundAfterEdit | panoptikon-config/src/lib.rs:370-401 | what a reader finds for each key of any edited source, hidden and veiled lines included |
| DotenvGuarantees.EditIsFaithful | panoptikon-config/src/lib.rs:370-401 | parsing the edited text gives the old variables, overridden and with the removed ones gone, for all valid names and all values, if the editor sees every assignment |
| DotenvGuarantees.EditingIsFaithfulExactly | panoptikon-config/src/lib.rs:370-401 | that holds for every edit of a source exactly when the editor sees every assignment the parser can see (against 520-557) |
| DotenvGuarantees.OrdinaryFilesAreEditedFaithfully | panoptikon-config/src/lib.rs:370-401 | in particular for sources without byte order marks and bare `export =` lines |
| DotenvGuarantees.HiddenLineDefeatsRemoval | panoptikon-config/src/lib.rs:424-449 | any hidden line makes a removal ineffective |
| DotenvGuarantees.VeiledLineDefeatsRemoval | panoptikon-config/src/lib.rs:520-525 | so does a readable line behind a byte order mark with only recognised lines above it: removing their keys and its own leaves it readable |
| DotenvGuarantees.BareExportExample | panoptikon-config/src/lib.rs:426-431 | removing `export` from `export =x` does not remove it |
| DotenvGuarantees.BomExample | panoptikon-config/src/lib.rs:520-525 | removing `A` from a byte order mark followed by `A=x` does not remove it |
| DotenvGuarantees.EditingTwiceIsEditingOnce | panoptikon-config/src/lib.rs:370-401 | applying the same edit again to the document changes nothing, whatever order the values are walked in |
| DotenvTwice.EditingTextTwice | panoptikon-config/src/lib.rs:335-416 | loading the edited text and applying the same edit again changes nothing, exactly unless the source has no CRLF and ends in a carriage return, its last line stays, and other lines stand beside it |
| DotenvTwice.EditingTextTwiceExactly | panoptikon-config/src/lib.rs:335-416 | so every edit is settled after the first time exactly when the source does not end in such a stray carriage return |
| DotenvTwice.StrayCrExample | panoptikon-config/src/lib.rs:335-358 | setting any variable in a file that is `#` and a carriage return takes a second edit to settle |
| DotenvGuarantees.OneLinePerKey | panoptikon-config/src/lib.rs:370-401 | afterwards each set key has exactly one recognised line and each removed key none |
| DotenvGuarantees.OtherLinesStay | panoptikon-config/src/lib.rs:370-401 | every line that sets none of the keys of an edit stays as it was, comments and blank lines among them, in the same order |
| DotenvGuarantees.LineBecomes | panoptikon-config/src/lib.rs:370-391 | a line that sets one makes way if the key is removed or set by a line above, and is otherwise rewritten where it stands, from the `=` to its comment |
| DotenvGuarantees.LinesOfEdited | panoptikon-config/src/lib.rs:335-416 | the text of an edit is the edited lines, each with the line ending of the source |
| NarWriter.NarSerialize | scripts/sync-nix-ui-pin.py:185-222 | every tree of files, symlinks and directories is written as its archive, and nothing else is accepted |
| NarWriter.NarWriter.WriteStr | scripts/sync-nix-ui-pin.py:176-182 | a string is written as one length-prefixed, padded word; it fails exactly when the length needs more than 64 bits |
| NarWriter.NarWriter.Dump | scripts/sync-nix-ui-pin.py:189-218 | dumping a node appends exactly its words, and succeeds exactly on serialisable nodes |
| NarWriter.ListDir | scripts/sync-nix-ui-pin.py:208 | a listing has every name once, in any order |
| NarWriter.SortByName | scripts/sync-nix-ui-pin.py:208 | sorting a listing gives the same names whatever its order |
| NarFormat.DecodeInvertsArchive | scripts/sync-nix-ui-pin.py:185-222 | decoding an archive consumes exactly it and gives the tree back |
| NarFormat.ArchiveInvertsDecode | scripts/sync-nix-ui-pin.py:185-222 | whatever the decoder accepts is the archive of what it returns |
| NarFormat.ArchiveIsInjective | scripts/sync-nix-ui-pin.py:185-222 | equal archives come from equal trees |
| NarFormat.ArchiveLength | scripts/sync-nix-ui-pin.py:176-182 | the length of an archive is a multiple of eight |
| NarFormat.CutFlat | scripts/sync-nix-ui-pin.py:176-182 | cutting the written words gives back the words |
| NarFormat.FlatCut | scripts/sync-nix-ui-pin.py:176-182 | whatever is cut into words is what these words are written as |
| NarFormat.SortedIsUnique | scripts/sync-nix-ui-pin.py:208 | a set of names has one sorted listing |
| NarFormat.SerializableExactly | scripts/sync-nix-ui-pin.py:189-218 | a tree has an archive exactly when nothing at any path in it is of another kind or has a string of 2^64 bytes or more |
| NarFormat.BeforeExactly | scripts/sync-nix-ui-pin.py:208 | names are ordered by their first differing byte, and before what they start |
| NarFormat.ShortString | scripts/sync-nix-ui-pin.py:176-182 | the bytes of a short string: its length in the first of eight, itself, zeros |
| NarFormat.NodeIsWritten | scripts/sync-nix-ui-pin.py:189-218 | the words for each kind of object, in order |
| NarFormat.EntryIsWritten | scripts/sync-nix-ui-pin.py:208-214 | the words around an entry of a directory |
| NarFormat.WordsAreNamed | scripts/sync-nix-ui-pin.py:189-220 | which texts these words are |
| EnvTemplateLoops.SubstituteStr | panoptikon/src/env_template.rs:178-250 | the scanning loop computes tokenise-then-evaluate |
| EnvTemplateLoops.Placeholder | panoptikon/src/env_template.rs:191-241 | one placeholder: its value and what follows it, or the failure of the whole |
| EnvTemplateLoops.LeadingVarNameLen | panoptikon/src/env_template.rs:278-293 | the length of the longest name at the start |
| EnvTemplateLoops.Walk | panoptikon/src/env_template.rs:148-172 | every string of the tree is substituted, and a failure is the failure of one of them |
| EnvTemplate.SucceedsExactly | panoptikon/src/env_template.rs:178-250 | substitution succeeds exactly when all placeholders are well formed, required variables are set, and mentioned ones are readable |
| EnvTemplate.DependsOnMentioned | panoptikon/src/env_template.rs:191-234 | the result depends only on the variables mentioned |
| EnvTemplate.ValuesAreVerbatim | panoptikon/src/env_template.rs:191-234 | a value is inserted as it is: what surrounds a placeholder is substituted on its own and the value is not rescanned |
| EnvTemplate.EscapedComesBack | panoptikon/src/env_template.rs:187-190 | text with every opening escaped substitutes to itself in every environment |
| EnvTemplate.TokeniseConcat | panoptikon/src/env_template.rs:178-250 | well-formed text that does not end in a dollar sign can be cut there |
| TemplateGrammar.WrittenMeans | panoptikon/src/env_template.rs:178-250 | a text made of characters, escaped openings and the three forms of placeholder is given the meanings of its parts, or fails as the first of them that fails |
| TemplateGrammar.EveryTextIsWritten | panoptikon/src/env_template.rs:178-250 | every text is such a sequence, or one that ends in an opening that lacks a name, an operator or an end |
| TemplateGrammar.RejectedMeans | panoptikon/src/env_template.rs:194-239 | such a text fails for that reason, unless a part in front of it fails |
| TemplateGrammar.WellFormedExactly | panoptikon/src/env_template.rs:178-250 | the well-formed texts are exactly the sequences of parts |
| EnvTemplateLoops.BindingAgrees | panoptikon-config/src/lib.rs:297-323 | a recognised whole-value binding substitutes to the variable or the fallback, and fails only for an unset variable without one |
| EnvTemplateLoops.BindingAgreesExactly | panoptikon-config/src/lib.rs:297-323 | recogniser and substituter agree in every environment exactly when the fallback holds no closing brace |
| Encodings.ParseDecimal | panoptikon/src/policy_token.rs:168 | a printed 64-bit number parses back |
| Encodings.ParseOfHex | panoptikon/src/policy_token.rs:175 | hex decoding inverts hex encoding |
| Encodings.ParseOfBase64 | panoptikon/src/policy_token.rs:169-174 | base64url decoding inverts encoding |
| Encodings.Base64OfParse | panoptikon/src/policy_token.rs:169-174 | the strict decoder accepts nothing but encodings |
| Encodings.KnownBase64 | panoptikon/src/policy_token.rs:131-141 | known encodings with the ends of each range of the URL-safe alphabet |
| Encodings.KnownEnds | panoptikon/src/policy_token.rs:131-141 | known encodings of one and of two bytes |
| Encodings.KnownNumbers | panoptikon/src/policy_token.rs:131-141 | a known number in decimal and known bytes in lower-case hex |
| PolicyToken.SignedTokenVerifies | panoptikon/src/policy_token.rs:131-191 | a signed token verifies to exactly its name and origin until it expires, and as expired afterwards, dots in names included |
| PolicyToken.EmptyClaimsNeverVerify | panoptikon/src/policy_token.rs:155-191 | a token for an empty name or origin never verifies |
| PolicyToken.MessageIsInjective | panoptikon/src/policy_token.rs:131-141 | the signed text determines its claims |
| PolicyToken.AcceptedTokenIsGenuine | panoptikon/src/policy_token.rs:155-191 | an accepted token whose signed text was produced by signing carries exactly the claims it was signed for, and has not expired |
| DbPolicy.ResolvedIsPermitted | panoptikon/src/policy.rs:799-873 | under a validated policy a parameter only resolves to the default, an allowed name, or the prefix and a safe name |
| DbPolicy.FilterDbList | panoptikon/src/policy.rs:896-933 | the listing is the whole list when everything is allowed, and otherwise exactly the shown names of the visible databases and the user's default, each once, in the order of first appearance |
| DbPolicy.ListingIsUnique | panoptikon/src/policy.rs:896-933 | which determines the listing |
| DbPolicy.OwnDatabaseRoundTrips | panoptikon/src/policy.rs:896-950 | a user's own database is listed without its prefix, and that name resolves back to it |
| DbPolicy.SharedDatabaseRoundTrips | panoptikon/src/policy.rs:896-933 | an allowed database outside the user's space is listed as itself and resolves to itself |
| DbPolicy.ShownNameLeadsBackExactly | panoptikon/src/policy.rs:1059-1071 | a shown name resolves back to its database exactly when it is not another allowed name |
| DbPolicy.ListingDisclosesOnlyVisible | panoptikon/src/policy.rs:896-933 | no other database is disclosed |
| DbPolicy.CurrentIsTheDefaultExactly | panoptikon/src/policy.rs:875-894 | naming the current database is the same as naming none exactly when the user's default is not an allowed shared name |
| DbPolicy.EnforceLoop | panoptikon/src/policy.rs:590-657 | the rewriting of a query, errors in order |
| DbPolicy.SortOut | panoptikon/src/policy.rs:605-623 | the loop keeps the other pairs in order and the first value of each key |
| DbPolicy.EnforcedQueryIsNormal | panoptikon/src/policy.rs:590-657 | a rewritten query has each parameter exactly once, permitted, after all other pairs in their order |
| DbPolicy.EnforcingTwiceExactly | panoptikon/src/policy.rs:590-657 | enforcing again changes nothing exactly when both databases are on the allow lists |
| DbPolicy.EnforcingTwiceWithoutUser | panoptikon/src/policy.rs:590-657 | and always when there is no user name |
| DbScoping.ResolvesExactly | panoptikon/src/policy.rs:799-873 | a parameter resolves to the database that was asked for if it is shared, to the one of that name behind the user's prefix if it is not, and to the default otherwise; and when it is refused, and why |
| DbScoping.RequestIsScoped | panoptikon/src/policy.rs:590-657 | a request gets the databases its first `index_db` and its first `user_data_db` ask for, by the rules for each; otherwise the first refusal |
| DbScoping.CreationIsScoped | panoptikon/src/policy.rs:659-718 | the same for the two parameters of a request to create databases, and no other database parameter is passed on |
| DbScoping.OthersInOrder | panoptikon/src/policy.rs:604-623 | the other parameters are kept one by one, in order |
| DbScoping.ListedExactly | panoptikon/src/policy.rs:896-950 | a listing holds exactly what the user sees of the databases that are there and shared or their own, and their own default, own ones without the prefix |
| DbScoping.FirstSlotReplaced | panoptikon/src/policy.rs:1042-1057 | the first slot of a template is replaced by the name, what is behind it likewise, and the rest stays |
| DbPolicy.PrefixExistsExactly | panoptikon/src/policy.rs:1042-1057 | under a validated template a safe user name gets a prefix exactly when the rendered text is no longer than a database name, and the prefix is safe (validation renders the name `user` only, config.rs:1696-1705) |
| DbPolicy.RenderedLength | panoptikon/src/policy.rs:1042-1057 | every slot of a template trades its own length for that of the name |
| DbPolicy.EveryUserIsServedExactly | panoptikon/src/config.rs:1696-1705 | every user gets a prefix exactly when the template leaves room for a name of 32 bytes, the length of a hashed one |
| DbPolicy.UnservedUserIsRefused | panoptikon/src/policy.rs:799-873 | a user whose prefix would be too long is refused a default of their own and every name that is not on the allow list |
| DbPolicy.UnservedUserExample | panoptikon/src/config.rs:1696-1705 | forty letters and a slot pass validation and serve no hashed user |
| Headers.StripHopByHop | panoptikon/src/proxy.rs:197-215 | exactly the end-to-end headers survive, in order: neither in the fixed set nor nominated by the message's own connection headers |
| Headers.SanitizedExactly | panoptikon/src/proxy.rs:217-226 | sanitising keeps those headers and adds the upgrade pair, nothing else |
| Headers.SanitizedTwice | panoptikon/src/proxy.rs:217-226 | sanitising twice is sanitising once |
| Forwarding.SplitCommaExactly | panoptikon/src/proxy.rs:197-215 | the parts of a value are what stands between its commas |
| Forwarding.UpgradePassedExactly | panoptikon/src/proxy.rs:228-239 | `Upgrade: v` is sent, with `Connection: upgrade` beside it, exactly when the connection can hand over an upgrade, some part of a `Connection` header is `upgrade` in any case, and `v` is what the first `Upgrade` header said; otherwise neither |
| Forwarding.OthersPass | panoptikon/src/proxy.rs:217-226 | every other header the proxy does not write itself is sent as it came exactly when it is end-to-end |
| Forwarding.NeverPassed | panoptikon/src/proxy.rs:180-195 | the seven other headers of one connection are never sent on |
| Forwarding.UpstreamIsTold | panoptikon/src/proxy.rs:490-545 | the upstream is addressed by its own authority and told the original host, the scheme, and the client behind any others that were named |
| Forwarding.OnlyTheUiGetsAToken | panoptikon/src/proxy.rs:374-408 | a token for the admitting policy, good for 300 seconds, is sent to the UI and to nothing else |
| Forwarding.ForwardedExactly | panoptikon/src/proxy.rs:335-352 | a request is forwarded exactly as long as fewer than four gateways have forwarded it |
| Forwarding.CountThatCameIn | panoptikon/src/proxy.rs:335-340 | the count is the number in the first such header, and 0 without one |
| Headers.HopsOfInserted | panoptikon/src/proxy.rs:335-373 | a hop count that was written reads back |
| Gateway.StripInboundHeaders | panoptikon/src/policy.rs:422-434 | every header of the gateway's namespace but the hop count is removed |
| Gateway.ForwardedNamespace | panoptikon/src/proxy.rs:335-406 | what is forwarded under that namespace is the incremented hop count and the minted token |
| Gateway.NothingSmuggled | panoptikon/src/proxy.rs:335-406 | after a chain of gateways of any length, every header of that namespace was written by the last one: the count of hops and its own token, nothing of a client's or of a gateway before it |
| Gateway.ChainsAreBounded | panoptikon/src/proxy.rs:335-373 | along any chain of gateways a request is forwarded at most four times, whatever headers it starts with |
| Gateway.TokenSelectsExactly | panoptikon/src/policy.rs:371-420 | a presented token selects, until it expires, the first policy of its name: the one it was minted for exactly when no earlier policy has that name |
| Gateway.AuthorityCarriesAcrossRender | panoptikon/src/policy.rs:218-255 | a request that echoes the token of a rendered page is enforced for 300 seconds under the first policy with the name of the one of that render, whatever its host or listener, and afterwards as if it had none; that is the policy of the render exactly when it stands first among its namesakes |
| Gateway.SecondOfTwoNamesakes | panoptikon/src/config.rs:1321-1356 | two policies of one name are a valid configuration; a page rendered under the second hands out a token, and the request that echoes it is enforced under the first |
| Admission.VerdictExactly | panoptikon/src/policy.rs:218-365 | the whole verdict on a request handled under a policy: refused for want of a desktop client, then by its rules, then for its user header, then for its databases, and otherwise admitted with these |
| Admission.RefusedExactly | panoptikon/src/policy.rs:257-302 | desktop and ruleset refusals are given exactly when the policy does not stand for the desktop, and, on an API or documentation path that is not exempt, when it names a ruleset other than `allow_all` that is missing or has no rule for this method and path or prefix |
| Admission.NoPolicyExactly | panoptikon/src/policy.rs:236-255 | no policy is found exactly when no token counts and no policy suits the host and endpoint |
| Admission.SelectsFirst | panoptikon/src/policy.rs:568-588 | the first policy whose hosts and endpoints match is selected |
| Admission.HostWithoutPort | panoptikon/src/policy.rs:510-523 | a host is compared in lower case, without its port and the white space around it |
| Admission.HostInBrackets | panoptikon/src/policy.rs:510-523 | an address in brackets is compared without them |
| Admission.UserExactly | panoptikon/src/policy.rs:952-988 | the user is the first name in the first header of the configured name: as it is if short and safe, otherwise the hex of half a digest; and when that is refused |
| Admission.AdmittedWithItsDatabases | panoptikon/src/policy.rs:304-345 | an admitted API request has the index its first `index_db` asks for by the rules for indexes, and the user data its first `user_data_db` asks for by those for user data, for the user it names |
| Gateway.UsernamesStayApart | panoptikon/src/policy.rs:952-988 | normalised user names are safe and short, and two differ unless both were hashed to the same hash (also hash_username, 1073-1081) |
| Gateway.LoopbackUrlIsUsable | panoptikon/src/config.rs:1593-1611 | the origin minted for a listener is non-empty, well-formed text |
| Extraction.MarkerNamesItsArchive | panoptikon/src/resources.rs:295-303 | the marker written for one archive matches that archive's hash and no other |
| Extraction.MarkerMeansComplete | panoptikon/src/resources.rs:312-399 | over any orderly interleaving of runs, each stopped anywhere, a matching marker means the whole archive is there |
| Extraction.MatchingIsForever | panoptikon/src/resources.rs:367-399 | and a matching destination is never removed or changed |
| Extraction.AnswerMeansInstalled | panoptikon/src/resources.rs:312-399 | a run that answers leaves a complete matching destination, and says it extracted exactly when it moved its copy into place |
| Extraction.EveryAnswerIsInstalled | panoptikon/src/resources.rs:312-399 | the same at the end of any orderly history from a sound beginning |
| Extraction.CommitIsSafeExactlyWhenOrderly | panoptikon/src/resources.rs:367-399 | no next step can undo a copy just moved into place exactly when no other run is between its re-check and its removal |
| Extraction.DisorderLeavesAFalseMarker | panoptikon/src/resources.rs:367-385 | otherwise a removal cut short leaves a matching marker beside an incomplete copy |
| Extraction.DisorderIsReachable | panoptikon/src/resources.rs:312-385 | two runs over a stale destination do reach that point, for every archive |
| Extraction.RaceIsAnswered | panoptikon/src/resources.rs:386-399 | of two runs that both come to rename over a vacant place one moves its copy and the other answers that it extracted nothing |
| Extraction.MarkerIsWritten | panoptikon/src/resources.rs:295-303 | name and text of the marker |
| ExtractionRun.Installation.constructor | panoptikon/src/resources.rs:312-316 | a sound beginning: no run live, and a marker that can be trusted |
| ExtractionRun.Installation.EnsureExtracted | panoptikon/src/resources.rs:312-355 | a run is an orderly run of the state machine; without a fault it installs the archive exactly when it was not there; it never changes a matching destination |
| ExtractionRun.Installation.CommitExtraction | panoptikon/src/resources.rs:367-399 | a destination that matches by now is left alone; otherwise the whole copy takes its place or the run fails |
| ExtractionRun.Installation.Populate | panoptikon/src/resources.rs:331-350 | the temporary directory is filled, marker last, without touching the destination or other directories |
| Worker.Serve | python/inferio_worker/__main__.py:145-297 | the loop computes the specified session: everything done and answered, in order, and the exit code (with main, 300-320) |
| Worker.Handshaking | python/inferio_worker/__main__.py:88-142 | the handshake's answers and when it ends the worker |
| Worker.EveryRunIsInOrder | python/inferio_worker/__main__.py:145-297 | for all requests and failures: prepare only before configure and not again after success, load after configure, predict and unload after a successful load, nothing after a successful unload, and every answer is truthful |
| Worker.OneConfigure | python/inferio_worker/__main__.py:193-224 | at most one configure succeeds |
| Worker.RefusalNamesTheModel | python/inferio_worker/__main__.py:193-202 | a refusal to configure again names the model of the one that succeeded |
| Worker.EveryRequestIsAnswered | python/inferio_worker/__main__.py:145-297 | the requests are answered in order, once each, with their own ids, up to the one that ends the run; which one that is and with which exit code |
| Worker.EveryActIsForItsRequest | python/inferio_worker/__main__.py:145-297 | everything the worker does is done for the request received last: the call it asks for, with the outcome that call has, and an answer under its id; nothing follows a call that quits or a granted unload |
| Worker.HandshakeDecides | python/inferio_worker/__main__.py:88-142 | the class is looked for exactly for a handshake of version 2, and requests are served exactly when it is found; the answer and the exit code in every other case |
| Worker.LocatedOnce | python/inferio_worker/__main__.py:103-137 | the class is looked for at most once, for a handshake of version 2 |
| Multipart.SplitByBoundary | panoptikon/src/inferio_client.rs:585-598 | the cursor loop splits at every marker from the left |
| Multipart.FindIsFirst | panoptikon/src/inferio_client.rs:600-607 | the first occurrence is found, and none only if there is none |
| Multipart.SplitRejoins | panoptikon/src/inferio_client.rs:585-598 | rejoining the pieces with the marker gives back the body |
| Multipart.PiecesAreClean | panoptikon/src/inferio_client.rs:585-598 | no piece contains the marker |
| Multipart.LayoutSplits | panoptikon/src/inferio_client.rs:585-598 | splitting a laid-out body gives back its sections |
| MultipartHeaders.ExtractFilename | panoptikon/src/inferio_client.rs:616-631 | the two loops find the first file name of the first disposition that has one |
| MultipartHeaders.FilenameRead | panoptikon/src/inferio_client.rs:616-631 | the client reads the file name the server wrote (http.rs:718-724) |
| MultipartHeaders.SlotRead | panoptikon/src/inferio_client.rs:562-566 | that name stands for its number |
| MultipartOutputs.ParseMultipartOutputs | panoptikon/src/inferio_client.rs:548-583 | all pieces are read and stored in order |
| MultipartOutputs.ReadPiece | panoptikon/src/inferio_client.rs:552-570 | what one piece holds, or that it is skipped |
| MultipartOutputs.StoreOutput | panoptikon/src/inferio_client.rs:571-579 | the list grows to the slot and is filled there, or is appended to |
| MultipartOutputs.SectionRead | panoptikon/src/inferio_client.rs:552-570 | a written section is read as its number and its content, less the line breaks at its end |
| MultipartOutputs.OutputsAreClean | panoptikon/src/inferio_client.rs:548-583 | whatever the body, no output contains the delimiter or ends in a line break |
| MultipartOutputs.ReadsBack | panoptikon/src/inferio_client.rs:548-583 | contents without the delimiter come back in any order, less the line breaks at their end |
| MultipartOutputs.RoundTripsExactly | panoptikon/src/inferio_client.rs:548-583 | exactly what was sent comes back, in any order of the sections, exactly when no content contains the delimiter or ends in a line break |
| MultipartOutputs.EncodeOutputs | panoptikon/src/inferio/http.rs:705-728 | the server's loop writes that layout, every output once |
| MultipartForeign.FirstLineCounts | panoptikon/src/inferio_client.rs:616-631 | of the header lines of a part, the first disposition with a file name counts, and in it the first such parameter |
| MultipartForeign.NoLineCounts | panoptikon/src/inferio_client.rs:616-631 | and without such a line there is no name |
| MultipartForeign.PartHolds | panoptikon/src/inferio_client.rs:552-570 | a part with a file name holds what follows its first blank line, less the line breaks at its end; one without is ignored |
| MultipartForeign.PartIsTaken | panoptikon/src/inferio_client.rs:571-579 | parts are taken in order: a numbered one fills its place and leaves the others, another is added at the end |
| MultipartForeign.BodyIsItsParts | panoptikon/src/inferio_client.rs:548-552 | the parts of a body are what stands between two dashes and the boundary |
| MultipartForeign.KeysRead | panoptikon/src/inferio_client.rs:616-631 | the header and the parameter that are read |
| PredictResponse.ParseJsonOutputs | panoptikon/src/inferio_client.rs:460-507 | the two loops compute the specified response or refusal |
| PredictResponse.DecodeAll | panoptikon/src/inferio_client.rs:499-502 | all wrapped outputs are decoded, or none |
| PredictResponse.ErrorReadsBack | panoptikon/src/inferio/slot_error.rs:66-77 | an error slot reads back as its class and message (slot_error_from_json, 146-155) |
| PredictResponse.NoSlotIsLost | panoptikon/src/inferio_client.rs:460-507 | in every accepted response each slot is an output or an error, and errors stand at their own places in order |
| PredictResponse.SlotsToldApart | panoptikon/src/inferio_client.rs:463-479 | without the reserved key in a JSON output, errors and outputs are told apart as they were sent |
| PredictResponse.ToldApartOnlyThen | panoptikon/src/inferio_client.rs:463-479 | and only then |
| PredictResponse.JsonBatchExactly | panoptikon/src/inferio_client.rs:460-507 | a batch of JSON outputs and errors is received as returned exactly when no output uses the reserved key and, beside errors, none looks like wrapped bytes |
| PredictResponse.BinaryBatchReadsBack | panoptikon/src/inferio_client.rs:460-507 | a batch of binary outputs and errors is received as returned, always |
| PredictResponse.MixedBatchIsRefused | panoptikon/src/inferio_client.rs:485-498 | beside errors, bytes mixed with plain JSON are refused |
| PredictResponse.SlotReadExactly | panoptikon/src/inferio/slot_error.rs:146-155 | which JSON is a typed error, and which claims to be one and is not |
| PredictResponse.ViolationExactly | panoptikon/src/inferio_client.rs:460-507 | a response is a violation exactly when it holds a false error, or an error beside both wrapped bytes and something else |
| UriList.FileUriFromBytes | panoptikon-clipboard/src/uri.rs:10-26 | the loop writes the scheme and the encoded path |
| UriList.UriListPayload | panoptikon-clipboard/src/payload.rs:18-25 | every URI is followed by a line break, in order |
| UriList.UriReadsBack | panoptikon-clipboard/src/uri.rs:10-26 | a URI decodes to its path and holds no line break and no space |
| UriList.ByteIsEncoded | panoptikon-clipboard/src/uri.rs:10-26 | every byte stands at its place: letters, digits and five marks as they are, any other as a percent sign and two upper-case hex digits |
| UriList.SchemeIsFile | panoptikon-clipboard/src/uri.rs:12 | the scheme and the empty authority |
| UriList.UriIsListed | panoptikon-clipboard/src/payload.rs:18-25 | every URI is followed by a carriage return and a line feed, in order |
| UriList.PayloadRoundTrips | panoptikon-clipboard/src/payload.rs:18-25 | splitting, dropping the scheme and decoding gives back exactly the paths, for every list of byte strings |

## Left out

- The concrete TOML tree is a value that methods take and return, with the document as the one
  object that is updated; aliasing of nodes inside the tree is not modelled, and the source has none.
- The order in which a patched table's keys are visited is arbitrary in the model, because the map
  type behind it is chosen at build time; the decoration of a key that is inserted again is plain.
- Not-a-number floats, which are unequal to themselves, and rendering a tree to text: an emptied
  array of tables disappears when it is rendered, so the theorems are about the tree.
- Positions of tables inside freshly made nodes other than those the patcher assigns itself.
- `.env` sources with mixed line endings: the editor normalises them on purpose, and the model does too.
- Legality of file names inside an archive, and names that are not valid Unicode; the model reads
  names as bytes, and anything that is no file, directory or symlink is an error.
- SHA-256 and HMAC: functions without further laws. Form-encoding of queries: queries are lists of pairs.
- Finding the effective host of a request, rule sets by wildcard beyond the path forms used here,
  reading the database listing from disk, and the rewriting of response bodies.
- That different users' database prefixes do not overlap: it depends on the configured template.
- Extraction: the sweeper that removes temporary directories older than a day is modelled only for
  processes that are not running; a run that unpacks for longer than a day could lose files to it.
- Extraction: removal of one directory is one step that can be cut short anywhere, but two
  processes inside the same removal at once are not interleaved file by file.
- Extraction: two threads of one process share a process id and are not modelled.
- ExtractionRun.Installation.CommitExtraction: as for EnsureExtracted, other runs stand still
  between the second look and the rename.
- ExtractionRun.Installation.EnsureExtracted: other runs stand still while it takes its steps; that
  they may take theirs in between is modelled in `Extraction`.
- The texts of messages and tracebacks, logging, and the conversion of inputs in the worker.
- Parsing JSON text, choosing an encoding by content type, retries and request building on the client.
- A file name in a multipart section that asks for an enormous slot: memory is not bounded here.
- HTTP routing, upgrade bridging, process supervision, downloads, the self-update, and build scripts.
