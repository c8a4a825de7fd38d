# Langflow frontend utilities: a verified model

This project models the logic-bearing helpers of the Langflow frontend's
`src/frontend/src/utils/utils.ts` and proves what they promise.

- **`groupByFamily`** is the connection-suggestion classifier of the flow editor. It takes:
  - a catalog of node categories, each mapping node names to definitions;
  - a newline-separated list of compatible type names;
  - an optional list of the nodes already placed in a flow.

  For every category it reports which nodes accept a compatible input (a visible template field) or produce a compatible output (a base class). The whole category is shown as `""` when every node qualifies. The memo `checkedNodes` stores each node's flags under the node's name. The flow can seed that memo.
- **The string helpers**:
  - case conversion: `toNormalCase`, `normalCaseToSnakeCase`, `toTitleCase`, `checkUpperWords`;
  - display: `classNames`, `truncateDisplayName`, `truncateLongId`, `extractIdFromLongId`;
  - field and tab lookups: `getFieldTitle`, `getChatInputField`.

Files:

- `wrappers.dfy`: `Option`, which stands for a JavaScript `undefined` result.
- `text.dfy` (module `Text`): the JavaScript string primitives the helpers are built from:
  - ASCII `toUpperCase`/`toLowerCase`;
  - `split` on a one-character separator, where `"".split(c)` is `[""]`;
  - `join`;
  - the idiom `word[0].toUpperCase() + word.slice(1).toLowerCase()`.

  It also proves their split/join and case-mapping laws.
- `types.dfy` (module `Types`): the template-field and tab-state records the helpers read.
- `case_conversion.dfy` (module `CaseConversion`): the four case helpers.
  - Each `split`/`map`/`join` pipeline is a function.
  - A contract states the result character by character, or word by word.
  - The source throws wherever `word[0]` is `undefined`. That condition is the function's `requires`.
- `display.dfy` (module `Display`): the remaining string helpers.
- `families.dfy` (module `Families`): `groupByFamily`.
  - The method `GroupByFamily` keeps the source's shape: a flow loop (`SeedFromFlow`), then a catalog loop whose body runs the node loop of one category (`ScanCategory`), updates `checkedNodes` and pushes into the candidate lists. The two inner loops are separate methods only so that each proof stays small.
  - Its loop invariants tie each variable to a function of the prefix scanned so far.
  - It is proved to return `GroupByFamilySpec`.
- `family_properties.dfy` (module `FamilyProperties`): a reference classification without a memo, and the proof that the memoised scan equals it. Every promised property of the result is proved on top of that:
  - which families appear;
  - in which order, each at most once;
  - when the `type` is empty;
  - what seeding does.
- `family_scenarios.dfy` (module `FamilyScenarios`): concrete catalogs. They show typical classifications and the behaviours listed below.

Representation choices:

- A catalog and a category are sequences of (name, value) pairs, in the enumeration order of `Object.entries`.
- A template is a `map`, because the source only asks whether some field qualifies, and that does not depend on order.
- `checkedNodes` is a `map<string, Flags>`.

### Behaviours of groupByFamily worth knowing

- **Empty compatibility string.** An empty compatibility string still matches the empty name: `"".split("\n")` is `[""]`, so the compatible set is `{""}`.
  - A node with an empty base-class name, or a visible field accepting an empty input type, still matches (`FamilyScenarios.EmptyCompatibilityMatchesEmptyName`).
  - Without such names the result is empty (`FamilyProperties.EmptyCompatibility`).
- **Seeding from a flow is not monotone.** Seeded flags replace the catalog classification for that name, so a flow can remove matches as well as add them.
  - A flow whose copy of a node has its field hidden removes a family the catalog alone would list (`FamilyScenarios.SeedCanHideFamily`).
  - A flow copy with an extra base class adds one (`FamilyScenarios.SeedCanAddFamily`).
  - When the flow holds the catalog's own definitions, the result is the same as without a flow (`FamilyProperties.FlowWithCatalogDefinitions`).
- **The memo is keyed by node name.** Classification is therefore not purely a function of each definition. A name that occurs in several categories is classified once, from its first definition in catalog order (or from the flow seed), and reused (`FamilyProperties.Effective`, `FamilyProperties.CandidatesAgree`).
- **A field's `type` must be non-empty.** A field with an empty `type` never counts, even through its input types (`template.type && …`).

## Model

| member | source | states |
|---|---|---|
| Text.Split | src/frontend/src/utils/utils.ts:28 | `split` on one character yields at least one piece, and no piece contains the separator |
| Text.Capitalize | src/frontend/src/utils/utils.ts:31 | `word[0].toUpperCase() + word.slice(1).toLowerCase()` keeps the length and the letters of the word: its first character is uppercased and every later one lowercased |
| Text.JoinSplit | src/frontend/src/utils/utils.ts:27-35 | splitting at `c` and joining with `d` replaces every `c` by `d` |
| Text.SplitJoin | src/frontend/src/utils/utils.ts:88-94 | splitting a join recovers the pieces when none holds the separator |
| Text.SplitOfJoin | src/frontend/src/utils/utils.ts:88-94 | splitting a join splits every piece, in order |
| Text.SplitConcat | src/frontend/src/utils/utils.ts:457 | splitting `a + c + b` at `c` is the split of `a` followed by the split of `b` |
| Text.SplitSinglePiece | src/frontend/src/utils/utils.ts:467 | a text splits into one piece exactly when it does not contain the separator |
| Text.SplitLower | src/frontend/src/utils/utils.ts:88-89 | lowercasing commutes with splitting at a character that has no case |
| Text.JoinLower | src/frontend/src/utils/utils.ts:33-35 | lowercasing commutes with joining on a separator that has no case |
| CaseConversion.CapitalizeFirst | src/frontend/src/utils/utils.ts:29-34 | the map callback keeps one word per input word: the first is capitalised, every later one lowercased, so only letter case changes |
| CaseConversion.CapitalizeFirstJoin | src/frontend/src/utils/utils.ts:27-35 | capitalising the first word and lowercasing the others, then joining, capitalises the joined text |
| CaseConversion.NormalPass | src/frontend/src/utils/utils.ts:27-45 | one split/map/join pass of toNormalCase capitalises the text with `c` replaced by `d` |
| CaseConversion.ToNormalCase | src/frontend/src/utils/utils.ts:26-46 | length is kept; the first character is uppercased; every later `_` or `-` becomes a space and every other character is lowercased; the input must be non-empty and must not start with `_` or `-` |
| CaseConversion.NormalCaseToSnakeCase | src/frontend/src/utils/utils.ts:48-58 | length is kept; the first character is uppercased; every later space becomes `_` and every other character is lowercased; the input must be non-empty and must not start with a space |
| CaseConversion.ToNormalCaseIdempotent | src/frontend/src/utils/utils.ts:26-46 | toNormalCase accepts its own output and leaves it unchanged |
| CaseConversion.SnakeCaseRoundTrip | src/frontend/src/utils/utils.ts:26-58 | for text without `_` or `-`, toNormalCase after normalCaseToSnakeCase gives the capitalised text |
| CaseConversion.FormatWord | src/frontend/src/utils/utils.ts:88-92 | only the case of the word changes; a word that reads `llm` or `uri` in any case comes out in capitals, and any other word is capitalised |
| CaseConversion.FormatEachFacts | src/frontend/src/utils/utils.ts:88-92 | formatting every word keeps each word up to case, adds no space, and turns each word into capitals when it reads `llm`/`uri` and into its capitalised form otherwise |
| CaseConversion.CheckUpperWords | src/frontend/src/utils/utils.ts:86-95 | the result equals the input up to case, and each of its space-separated words is in capitals when it reads `llm` or `uri` and capitalised otherwise; every word must be non-empty |
| CaseConversion.TitleWordUnique | src/frontend/src/utils/utils.ts:88-92 | two words in the form checkUpperWords gives them that agree up to case are equal |
| CaseConversion.CheckUpperWordsDetermined | src/frontend/src/utils/utils.ts:86-95 | any text equal to the input up to case whose words all have that form is the result of checkUpperWords: the contract fixes the output |
| CaseConversion.CheckUpperWordsAcronym | src/frontend/src/utils/utils.ts:86-95 | a single word reading `llm` or `uri` in any case becomes that word in capitals |
| CaseConversion.CheckUpperWordsCase | src/frontend/src/utils/utils.ts:86-95 | checkUpperWords depends only on the lowercased input |
| CaseConversion.CheckUpperWordsConcat | src/frontend/src/utils/utils.ts:87-94 | checkUpperWords on two space-joined texts is the space-join of the two results |
| CaseConversion.JoinCheckUpperWords | src/frontend/src/utils/utils.ts:87-94 | joining per-word results with spaces gives checkUpperWords of the joined words |
| CaseConversion.PiecesHaveWords | src/frontend/src/utils/utils.ts:61-70 | when no word around a delimiter is empty, no word of any delimiter piece is empty |
| CaseConversion.WordsSurviveReplace | src/frontend/src/utils/utils.ts:73-82 | the non-throw condition of the first pass (on the text with `_` turned into spaces) follows from that of the whole text, with `-` turned into spaces as well |
| CaseConversion.TitleSegment | src/frontend/src/utils/utils.ts:63-70 | the per-piece map of toTitleCase equals checkUpperWords of the piece, for the first piece as for the others |
| CaseConversion.TitlePass | src/frontend/src/utils/utils.ts:61-71 | one split/map/join pass equals checkUpperWords of the text with the delimiter replaced by a space |
| CaseConversion.ToTitleCase | src/frontend/src/utils/utils.ts:60-84 | the result is checkUpperWords of the text with `_` and `-` turned into spaces: it is non-empty, as long as the input, holds no `_` or `-`, and every word is in capitals when it reads `llm`/`uri` and capitalised otherwise; every run between delimiters must be non-empty |
| CaseConversion.ToTitleCaseIdempotent | src/frontend/src/utils/utils.ts:60-84 | toTitleCase accepts its own output and leaves it unchanged |
| CaseConversion.TitleAndNormalAgreeUpToCase | src/frontend/src/utils/utils.ts:26-84 | wherever toTitleCase is defined, toNormalCase is too, and both give the same text up to case |
| Display.NonEmptyClasses | src/frontend/src/utils/utils.ts:19 | `filter(Boolean)` keeps exactly the non-empty names, and nothing else |
| Display.NonEmptyClassesAppend | src/frontend/src/utils/utils.ts:19 | `filter(Boolean)` distributes over concatenation, so it keeps the names in their order and with their repetitions |
| Display.JoinKeptClasses | src/frontend/src/utils/utils.ts:19 | the joined names are empty exactly when every name is; splitting them at spaces gives the words of the kept names in order, and the kept names themselves when none holds a space |
| Display.ClassNames | src/frontend/src/utils/utils.ts:18-20 | the result is empty exactly when every class name is empty; splitting it at spaces gives the space-separated words of the non-empty names, in order, and the non-empty names themselves when none holds a space |
| Display.TruncateDisplayName | src/frontend/src/utils/utils.ts:471-477 | a name of at most 15 characters is unchanged; a longer one becomes its first 15 characters followed by "...", so the result has at most 18 characters |
| Display.TruncateDisplayNameIdempotent | src/frontend/src/utils/utils.ts:471-477 | truncating twice is truncating once |
| Display.TruncateLongId | src/frontend/src/utils/utils.ts:456-464 | an id whose part before the first `-` has at most 15 characters is unchanged; the result's part before the first `-` has at most 18 characters |
| Display.TruncateWellFormedId | src/frontend/src/utils/utils.ts:456-464 | for `componentName-newId` followed by nothing or by further `-` pieces: a component name over 15 characters is cut to 15 plus "..." and only `-newId` follows, the further pieces being dropped; otherwise the id is unchanged |
| Display.WellFormedPieces | src/frontend/src/utils/utils.ts:457 | the first two `-` pieces of `componentName-newId`, with anything after a further `-`, are the component name and newId |
| Display.TruncateIdWithoutDash | src/frontend/src/utils/utils.ts:457-461 | a long id without `-` gets the text "-undefined" appended after "..." |
| Display.ExtractIdFromLongId | src/frontend/src/utils/utils.ts:466-469 | the result is undefined exactly when the id contains no `-`; otherwise it contains no `-`, and ExtractWellFormedId states which text it is |
| Display.ExtractWellFormedId | src/frontend/src/utils/utils.ts:466-469 | for `componentName-newId` followed by nothing or by further `-` pieces, the result is newId: the text between the first and the second `-` |
| Display.ExtractAfterTruncate | src/frontend/src/utils/utils.ts:456-469 | for an id containing `-`, truncation keeps the extracted id |
| Display.GetFieldTitle | src/frontend/src/utils/utils.ts:558-567 | a non-empty display_name is returned as is; otherwise the title case of the non-empty name, or else of the field key; that text is as long as its source and holds no `_` or `-` |
| Display.GetChatInputField | src/frontend/src/utils/utils.ts:283-297 | "text" when the tab has no input keys; otherwise the first input key; undefined when input_keys is an empty object |
| Families.CompatibleTypes | src/frontend/src/utils/utils.ts:106 | no compatible name contains a newline, and a string without a newline gives the set of that one string |
| Families.CompatibleTypesConcat | src/frontend/src/utils/utils.ts:106 | a newline splits the list: the set of `a + "\n" + b` is the union of the sets of `a` and `b`; with the one-name case this gives the set of every string |
| Families.CheckBaseClass | src/frontend/src/utils/utils.ts:128-135 | a hidden field or one with an empty `type` never counts; a field of an excluded primitive type counts exactly when it is visible and one of its input types is compatible, never by its own type |
| Families.Classify | src/frontend/src/utils/utils.ts:144-149 | a node without base classes offers no output, and a node without a visible field takes no input |
| Families.ClassifyAgainstEmptyName | src/frontend/src/utils/utils.ts:106-149 | against `{""}`, the set an empty compatibility string gives, a node qualifies only through a base class or an input type that is the empty name |
| Families.SeedStep | src/frontend/src/utils/utils.ts:140-150 | one flow node stores its type; each stored flag is set exactly when it was set before or the node sets it; every other type keeps its flags |
| Families.Remember | src/frontend/src/utils/utils.ts:159-170 | a name already in `checkedNodes` keeps its flags and is not classified again; a new name is stored with the node's own flags; nothing else changes |
| Families.MemoAfterNodes | src/frontend/src/utils/utils.ts:156-168 | scanning a category keeps every stored name and stores every name of the category |
| Families.SeedFromFlow | src/frontend/src/utils/utils.ts:137-152 | the flow loop leaves `checkedNodes` equal to the seed memo of the whole flow, whose meaning (one entry per flow type, each flag the OR over that type's nodes) SeedMemoOr states |
| Families.ScanCategory | src/frontend/src/utils/utils.ts:156-170 | the node loop of one category leaves `checkedNodes`, `tempInputs` and `tempOutputs` equal to the memo after the category and the names its flags select, in order |
| Families.GroupByFamily | src/frontend/src/utils/utils.ts:100-200 | the loops return GroupByFamilySpec: the flow seeding, the memoised catalog scan, and the selection of outputs (left) or inputs with the `""`/joined-names type |
| Families.ToGrouped | src/frontend/src/utils/utils.ts:191-199 | the family is the category; a full category shows type `""`; any other shows a text that begins with the first picked name, so it is non-empty when that name is (the full joined value is stated by FamilyProperties.ExpectedEntry) |
| FamilyProperties.FirstDef | src/frontend/src/utils/utils.ts:156-168 | a name has a first definition exactly when it occurs, and that definition is paired with the name |
| FamilyProperties.RememberAgrees | src/frontend/src/utils/utils.ts:156-168 | storing a node on first sight keeps the memo equal to the seed plus the first-definition flags of the names seen |
| FamilyProperties.MemoAfterNodesAgrees | src/frontend/src/utils/utils.ts:156-170 | after a category, the memo holds the seeded names and the names seen, each with its effective flags |
| FamilyProperties.PicksAgree | src/frontend/src/utils/utils.ts:167-170 | tempInputs/tempOutputs are the category's names whose effective flags select them, in order |
| FamilyProperties.MemoAfterCatalogAgrees | src/frontend/src/utils/utils.ts:154-170 | the memo after any number of categories agrees with the effective flags |
| FamilyProperties.CandidatesAgree | src/frontend/src/utils/utils.ts:154-189 | the memoised scan yields the memo-free reference candidates |
| FamilyProperties.GroupByFamilyReference | src/frontend/src/utils/utils.ts:100-200 | groupByFamily's result is the reference classification of the whole catalog |
| FamilyProperties.PurePicksFacts | src/frontend/src/utils/utils.ts:167-189 | the picks are exactly the qualifying names; there are as many picks as nodes exactly when every node qualifies; there are none exactly when no node qualifies |
| FamilyProperties.PureCandidatesSound | src/frontend/src/utils/utils.ts:173-189 | every candidate is the entry of a category with a qualifying node, and the categories are strictly increasing in catalog order |
| FamilyProperties.PureCandidatesComplete | src/frontend/src/utils/utils.ts:173-189 | every category with a qualifying node has its entry in the list |
| FamilyProperties.PureCandidatesEmpty | src/frontend/src/utils/utils.ts:173-189 | the list is empty exactly when no category has a qualifying node |
| FamilyProperties.ExpectedEntry | src/frontend/src/utils/utils.ts:172-199 | the count test `length === totalNodes` holds exactly when every node qualifies, so the entry's type is `""` exactly then, and otherwise the qualifying names joined by ", " |
| FamilyProperties.GroupByFamilyEntries | src/frontend/src/utils/utils.ts:154-199 | the result lists, in catalog order, the expected entry of every category with a qualifying node and of no other category; the list is outputs when left holds and inputs otherwise |
| FamilyProperties.FamiliesDistinct | src/frontend/src/utils/utils.ts:154-189 | with distinct category names, no family is listed twice |
| FamilyProperties.MemoAfterNodesKeeps | src/frontend/src/utils/utils.ts:157-168 | a name already in checkedNodes is never re-evaluated during a category scan |
| FamilyProperties.MemoAfterCatalogKeeps | src/frontend/src/utils/utils.ts:154-170 | a seeded name keeps its stored flags through the whole catalog scan |
| FamilyProperties.SeedMemoOr | src/frontend/src/utils/utils.ts:137-152 | the flow seeds exactly its node types, and each flag is the OR over that type's flow nodes |
| FamilyProperties.FlowWithCatalogDefinitions | src/frontend/src/utils/utils.ts:137-168 | a flow whose nodes carry the catalog's definitions leaves the result unchanged |
| FamilyProperties.PrimitiveFieldsNeverInput | src/frontend/src/utils/utils.ts:118-135 | in a scan without a flow, a node whose fields are hidden, untyped or of an excluded primitive type, without input types, is never an input candidate, whatever types are compatible |
| FamilyProperties.EmptyCompatibility | src/frontend/src/utils/utils.ts:106-135 | without a flow, an empty compatibility string gives no family unless some base class or input type is the empty name |
| FamilyScenarios.SingleNodeScan | src/frontend/src/utils/utils.ts:154-199 | a one-node category is listed with type `""` exactly when the node's stored or computed flag selects it |
| FamilyScenarios.FirstOfTwoQualifies | src/frontend/src/utils/utils.ts:172-199 | a two-node category where only the first node qualifies is listed under that node's name |
| FamilyScenarios.OpenAIAsInput | src/frontend/src/utils/utils.ts:128-135 | a visible `str` field whose input types include the compatible type makes its family an input |
| FamilyScenarios.OpenAIAsOutput | src/frontend/src/utils/utils.ts:145-150 | a compatible base class makes its family an output |
| FamilyScenarios.UnknownMatchesNothing | src/frontend/src/utils/utils.ts:118-135 | an unknown type matches nothing in either direction |
| FamilyScenarios.PrimitiveOwnTypeDoesNotCount | src/frontend/src/utils/utils.ts:118-131 | a `str` field does not count by its own type even when `str` is compatible |
| FamilyScenarios.PartialCategoryNamesNodes | src/frontend/src/utils/utils.ts:172-199 | when one of two nodes qualifies, the entry's type is that node's name |
| FamilyScenarios.SeedCanHideFamily | src/frontend/src/utils/utils.ts:137-168 | a flow node with its field hidden hides a family the catalog alone lists |
| FamilyScenarios.SeedCanAddFamily | src/frontend/src/utils/utils.ts:137-168 | a flow node with an extra base class adds a family the catalog alone does not list |
| FamilyScenarios.EmptyCompatibilityMatchesEmptyName | src/frontend/src/utils/utils.ts:106 | an empty compatibility string still matches an empty base-class name |

## Left out

- `cn` (utils.ts:22-24) is left out. It only wraps the external `clsx` and `twMerge` libraries, which are not part of this model.
- `isWrappedWithClass` (utils.ts:97-98) is left out. It is a DOM `closest` query on an event target.
- `getRandomElement`, `getRandomDescription`, `getRandomName` and `getRandomKeyByssmm` (utils.ts:212-256) are left out. They depend on `Math.random`, the clock, console output, and word lists from a constants file that is not part of this model.
- `buildInputs` and `buildTweakObject` (utils.ts:202-210, 263-275) are left out. They are built on `JSON.stringify`/`JSON.parse` with swallowed exceptions, and they mutate untyped data in place.
- `getPythonApiCode`, `getCurlCode`, `getPythonCode` and `getWidgetCode` (utils.ts:304-454) are left out. They are template-string generators that read `window.location` and call `buildTweaks`, which is not part of this model.
- `tabsArray` (utils.ts:479-556) is left out. It is a constant table of display metadata. Its `method === 0` branch cannot be reached after the early `if (!method) return`.
- `varHighlightHTML` (utils.ts:258-261) is left out. It is a one-line HTML string template.
- Case mapping covers ASCII letters only. Full Unicode `toUpperCase`/`toLowerCase` can change a string's length (for example "ß" becomes "SS"). The length-preservation results hold for ASCII text only.
- The source takes a whole flow in `getChatInputField`. The model takes its `id`, because that is all the function reads.
- The model keeps only the keys of `input_keys`, in enumeration order, not their values.
- Catalog and category entries follow the order of `Object.entries` as given. JavaScript enumerates integer-like keys first, in ascending order. That reordering is not modelled.
- A template's non-field entries (such as its `_type` string) are not represented. Their `type` property is `undefined`, so they never pass the field test.
- `groupByFamily` reads `node.data.node!` and `node!`. The model requires every definition to be present. The source throws on a missing one unless the read is skipped: in the flow loop (utils.ts:143, 146) `||` skips it when the stored flag is already true, and in the catalog loop (utils.ts:159-162) a name already in `checkedNodes` is not read again.
- Display.TruncateLongId: its own contract gives two facts: ids with a short component name are unchanged, and the result's component part has at most 18 characters. The exact output is stated by the companion lemmas: `TruncateWellFormedId` for every id holding a `-` (its first two pieces and whatever follows), and `TruncateIdWithoutDash` for ids without one.
- Lengths, slices and indexing are over Unicode code points, because a Dafny `string` counts code points. JavaScript's `length`, `slice` and `word[0]` count UTF-16 code units. So a name with a character outside the Basic Multilingual Plane (an emoji, say) can be truncated by `truncateDisplayName` and `truncateLongId` but not by the model, and JavaScript's `slice(0, 15)` or `word[0]` can split a surrogate pair that the model keeps whole.
