# TelephoneNumber data importer, modelled in Dafny

The `TelephoneNumber::DataImporter` class of the `telephone_number` gem reads
phone-number metadata from an XML document. It walks every `territory`
element inside `territories`, in document order, and builds one record per
country id:

- the territory's attributes, under canonical snake-case keys;
- `references`: the texts of the `sourceUrl` elements inside `references`;
- `validations`: one group of rules per child element that is not
  `references` or `availableFormats`;
- `formats`: one hash per `numberFormat` inside `availableFormats`.

Every key taken from an attribute name or an element name goes through
`underscore`, the camel-case to snake-case rewrite. Country ids and the
section keys `references`, `validations` and `formats` are used as they are.

Stripping (`delete("\n ")`, which removes every newline and space) applies
to every validation field. It also applies to every format field except
`national_prefix_formatting_rule` and `format`. Of the base attributes only
`national_prefix_for_parsing` is stripped; all others are stored verbatim,
and so are the reference texts.

This project models that core and proves what it does. It has six modules:

- `Canonical` (`canonical.dfy`) models `underscore` as five rewrites. They are
  `::` to `/`, the acronym split, the camel-case split, hyphens to
  underscores, and lower-casing. The guard in front of them is modelled too.
  The module proves that the output is clean and that canonicalising is
  idempotent. It also proves two general theorems: camel-case words become
  snake case, and an acronym before a word gets an underscore before the
  word.
- `CanonicalExamples` (`canonical_examples.dfy`) proves six example names:
  `sourceUrl`, `nationalPrefixForParsing` and `HTMLParser` through the general
  theorems, and `id`, `a-b` and `A::B` step by step.
- `Markup` (`markup.dfy`) models the parsed document as a tree of elements.
  It covers the attribute table of an element and the CSS descendant
  selector `A B`.
- `Hashes` (`hashes.dfy`) models a Ruby hash receiving `h[k] = v` writes in
  order, with the last-write-wins rule proved about it.
- `Normalisers` (`normalisers.dfy`) models the four `load_*` passes. Each
  hash-filling loop is a method with a loop, proved equal to a function over
  the list of writes it performs.
- `Importer` (`importer.dfy`) models the walk. `DataImporter` is a class with
  a `data` map field. `ParseMainData` is a method whose loop is proved
  against `Imported`, a function over the territories' contributions.

Two behaviours of the importer are worth noting:

- A territory without an `id` raises an error in the middle of the walk. The
  records built before it stay in `data`, so the error is not all-or-nothing.
  `ParseMainData` returns `false` in that case, and its postcondition says
  exactly which territories were imported.
- When two territories share an id, the second does not replace the first's
  record. The base attributes of both accumulate, with the later value
  winning on a shared key. References, validations and formats are replaced
  wholesale by the later territory's. `ImportedBaseKeys` and
  `ImportedSectionsFromLast` state this.

## Model

| member | source | states |
|---|---|---|
| Canonical.UnderscoreIsClean | lib/telephone_number/data_importer.rb:74-82 | the result of `underscore` never matches the guard: no upper-case letter, no hyphen, no `::` |
| Canonical.RewriteFixesCleanNames | lib/telephone_number/data_importer.rb:75-80 | on a name the guard lets through unchanged, the five rewrites would also leave it unchanged, so the guard is only a shortcut |
| Canonical.UnderscoreIdempotent | lib/telephone_number/data_importer.rb:74-82 | canonicalising a canonical name changes nothing |
| Canonical.CamelCaseToSnakeCase | lib/telephone_number/data_importer.rb:77-80 | a lower-case word followed by capitalised words becomes the words joined by `_` and lower-cased |
| Canonical.AcronymToSnakeCase | lib/telephone_number/data_importer.rb:77-80 | an upper-case run followed by a capitalised word gets `_` before the word's capital, then is lower-cased (`HTMLParser` to `html_parser`) |
| Canonical.ColonsToSlashFacts | lib/telephone_number/data_importer.rb:76 | after `gsub(/::/, '/')` no `::` remains, a text without `::` is unchanged, and the first character is kept or becomes `/` |
| Canonical.AcronymRunFacts | lib/telephone_number/data_importer.rb:77 | the run matched by `[A-Z\d]+` is the longest prefix of upper-case letters and digits |
| Canonical.SplitAcronymsFacts | lib/telephone_number/data_importer.rb:77 | the acronym split keeps the first character and introduces no `::` |
| Canonical.SplitAcronymsIdentity | lib/telephone_number/data_importer.rb:77 | with no upper-case letter or digit directly before an upper-case letter, the acronym split changes nothing |
| Canonical.SplitCamelFacts | lib/telephone_number/data_importer.rb:78 | after the camel-case split, no lower-case letter or digit directly precedes an upper-case letter; text without such a pair is unchanged |
| Canonical.HyphensToUnderscores | lib/telephone_number/data_importer.rb:79 | `tr("-", "_")` keeps the length, turns each hyphen into `_`, leaves no hyphen and keeps every other character in place |
| Canonical.ToLower | lib/telephone_number/data_importer.rb:80 | an upper-case ASCII letter becomes its lower-case letter; every other character is unchanged |
| Canonical.Downcase | lib/telephone_number/data_importer.rb:80 | `downcase` keeps the length, leaves no upper-case letter, keeps every other character and turns each upper-case letter into its own lower-case letter (code point + 32) |
| CanonicalExamples.UnderscoreExamples | lib/telephone_number/data_importer.rb:74-82 | `id`, `sourceUrl`, `nationalPrefixForParsing`, `HTMLParser`, `a-b` and `A::B` canonicalise to `id`, `source_url`, `national_prefix_for_parsing`, `html_parser`, `a_b` and `a/b` |
| Markup.AttributeTable | lib/telephone_number/data_importer.rb:60 | the attribute table of an element holds each name once |
| Markup.AttributeTableLookup | lib/telephone_number/data_importer.rb:18 | `attributes[name]` is the value of the last attribute with that name, and nothing when there is none |
| Markup.Select | lib/telephone_number/data_importer.rb:17 | every node the selector finds carries the inner name |
| Markup.SelectWithoutOuter | lib/telephone_number/data_importer.rb:71 | with no element of the outer name, the descendant selector finds nothing |
| Markup.SelectEnter | lib/telephone_number/data_importer.rb:17 | searching from outside, a node named `outer` switches the search on: all its `inner` descendants are found, in document order, before what its later siblings give |
| Markup.SelectAppend | lib/telephone_number/data_importer.rb:17 | the selector over two forests in a row finds what each finds, in that order |
| Markup.SelectPass | lib/telephone_number/data_importer.rb:17 | searching from outside, a node not named `outer` is not collected and its children are searched from outside |
| Markup.SelectSection | lib/telephone_number/data_importer.rb:31 | when a forest's root at any position `k` is named `outer` and no node outside that tree is, the selector finds exactly that root's `inner` descendants in document order |
| Markup.TerritoriesOfSection | lib/telephone_number/data_importer.rb:17 | when the document root is not `territories` and exactly one of its child trees holds `territories`, at its top, the walk visits exactly the `territory` elements below it, in document order |
| Markup.TerritoriesExample | lib/telephone_number/data_importer.rb:17 | the layout `phoneNumberMetadata > territories > territory` yields that one territory, whatever its children, provided no element below it is named `territory` |
| Markup.SelectInside | lib/telephone_number/data_importer.rb:31 | inside an element of the outer name, the selector finds every inner-named descendant in document order |
| Hashes.AssignAllLastWriteWins | lib/telephone_number/data_importer.rb:60-67 | a run of hash writes leaves the old keys plus the written ones; the last write to a key is its value; unwritten keys keep their old value |
| Hashes.AssignAllAppend | lib/telephone_number/data_importer.rb:19-21 | writing a second run of writes onto the same hash equals writing both runs in order |
| Hashes.AssignAllAgree | lib/telephone_number/data_importer.rb:19-21 | two hashes that agree on a key still agree on it after the same writes |
| Hashes.AssignAllValues | lib/telephone_number/data_importer.rb:60-67 | every value left in the hash was either there before or written |
| Normalisers.StripIsStripped | lib/telephone_number/data_importer.rb:63 | `delete("\n ")` leaves no newline and no space |
| Normalisers.StripCounts | lib/telephone_number/data_importer.rb:63 | `delete("\n ")` keeps every other character as many times as it occurred |
| Normalisers.StripKeepsStripped | lib/telephone_number/data_importer.rb:63 | a value with no newline or space is unchanged by `delete("\n ")` |
| Normalisers.StripAppend | lib/telephone_number/data_importer.rb:63 | `delete("\n ")` works character by character: stripping a concatenation is the concatenation of the stripped parts, so kept characters stay in order |
| Normalisers.StripExamples | lib/telephone_number/data_importer.rb:54 | `"1\n2 3"` strips to `"123"` |
| Normalisers.LoadBaseAttributes | lib/telephone_number/data_importer.rb:59-68 | the record after the loop is the old record under one write per attribute (canonical key; value stripped only for `national_prefix_for_parsing`), with last write winning and other keys untouched |
| Normalisers.BaseAttributesValues | lib/telephone_number/data_importer.rb:59-68 | the key of an attribute no later attribute overrides holds its value: verbatim, or stripped when the key is `national_prefix_for_parsing` |
| Normalisers.LoadReferences | lib/telephone_number/data_importer.rb:70-72 | `references` holds the `sourceUrl` texts under `references`, in document order and unaltered; every other key is unchanged |
| Normalisers.ReferencesInSection | lib/telephone_number/data_importer.rb:71 | when a territory's only `references` element is its child at any position `k`, the references are that element's `sourceUrl` descendants, in document order |
| Normalisers.ReferencesWithoutSection | lib/telephone_number/data_importer.rb:71 | a territory with no `references` element gets an empty list |
| Normalisers.ValidationGroup | lib/telephone_number/data_importer.rb:53-55 | a rule group holds one entry per child under its canonical name, with stripped text and last write winning |
| Normalisers.LoadValidations | lib/telephone_number/data_importer.rb:49-57 | `validations` is reset and refilled with one group per child that is not `references` or `availableFormats`; nothing else in the record changes |
| Normalisers.ValidationKeys | lib/telephone_number/data_importer.rb:51-53 | the validations' keys are exactly the canonical names of the non-excluded children |
| Normalisers.ValidationLastGroupWins | lib/telephone_number/data_importer.rb:51-55 | a group name holds the group of the last non-excluded child with that canonical name |
| Normalisers.GroupIsStripped | lib/telephone_number/data_importer.rb:54 | every value in a rule group is stripped |
| Normalisers.ChildlessGroup | lib/telephone_number/data_importer.rb:53-54 | an element with no children gives an empty group |
| Normalisers.FormatRecord | lib/telephone_number/data_importer.rb:32-45 | a format hash is the attribute writes followed by the child writes |
| Normalisers.AddFormatAttributes | lib/telephone_number/data_importer.rb:33-40 | the attribute loop writes each attribute in table order, stripped unless its key is `national_prefix_formatting_rule` |
| Normalisers.AddFormatChildren | lib/telephone_number/data_importer.rb:41-44 | the child loop writes each child's text in order, stripped unless its key is `format` |
| Normalisers.LoadFormats | lib/telephone_number/data_importer.rb:30-47 | `formats` is replaced by one hash per `numberFormat` under `availableFormats`, in document order; nothing else in the record changes |
| Normalisers.NumberFormatsInSection | lib/telephone_number/data_importer.rb:31 | when a territory's only `availableFormats` element is its child at any position `k`, the formats come from that element's `numberFormat` descendants, in document order |
| Normalisers.FormatsWithoutSection | lib/telephone_number/data_importer.rb:31 | a territory with no `availableFormats` element gets an empty list |
| Normalisers.FormatChildWins | lib/telephone_number/data_importer.rb:41-44 | a child's key holds its text even when an attribute has the same key; verbatim only for `format` |
| Normalisers.FormatAttributeKept | lib/telephone_number/data_importer.rb:33-40 | an attribute key no child overrides holds its value; verbatim only for `national_prefix_formatting_rule` |
| Normalisers.FormatIsStripped | lib/telephone_number/data_importer.rb:35-43 | every format value other than the two exempt keys is stripped |
| Importer.MergeFacts | lib/telephone_number/data_importer.rb:21-24 | after the four passes, the three sections come from the territory alone; every other key is as the base attributes left it |
| Importer.FirstWithoutId | lib/telephone_number/data_importer.rb:17-18 | the walk reaches exactly the territories before the first one without an `id` |
| Importer.FirstWithoutIdAt | lib/telephone_number/data_importer.rb:18 | the error is raised at the first territory without an `id` |
| Importer.DataImporter.constructor | lib/telephone_number/data_importer.rb:6-9 | a new importer holds the parsed document and empty data |
| Importer.DataImporter.ParseMainData | lib/telephone_number/data_importer.rb:16-26 | succeeds if and only if every territory has an `id`; the data is the old data with every territory up to the first without an `id` merged in, in document order |
| Importer.DataImporter.MergeTerritory | lib/telephone_number/data_importer.rb:19-24 | the record of the id, or a new empty one, is run through the four passes; no other id changes |
| Importer.ImportedOtherIds | lib/telephone_number/data_importer.rb:17-25 | an id no territory carries keeps its presence and its record |
| Importer.ImportedKeys | lib/telephone_number/data_importer.rb:17-19 | the data's ids are the old ids plus the id of every territory |
| Importer.ImportedSectionsFromLast | lib/telephone_number/data_importer.rb:22-24 | references, validations and formats of an id are those of the last territory carrying it |
| Importer.ImportedBaseKeys | lib/telephone_number/data_importer.rb:19-21 | outside the three sections, an id's record is its earlier record under the base-attribute writes of every territory with that id, in order |
| Importer.ImportedBaseLastWrite | lib/telephone_number/data_importer.rb:19-21 | a base attribute holds the value of its last write across all territories with that id |

## Left out

- Opening and parsing the XML file (`initialize`, lines 6-9) is I/O. The constructor takes the parsed document as a value, and a missing or malformed file is not modelled.
- `import!` and `save_data_file` (lines 11-14 and 84-87) write the data with `Marshal` to a file path. This is I/O and serialisation, so it is not modelled.
- Element text is a given field of each element. The XML library's concatenation of descendant text nodes is not modelled, and text nodes are not children.
- Only the descendant selector `A B` is modelled, not CSS in general.
- Keys are strings. Ruby's conversion to symbols (`to_sym`) is the identity on the model, and hash key order is not modelled, because maps are unordered.
- Canonical.Downcase: lower-cases ASCII letters only. Ruby's `downcase` also folds non-ASCII letters.
- The regular expressions of `underscore` are modelled as explicit scanners with Ruby's leftmost-match, non-overlapping semantics. The regular-expression engine itself is not modelled.
- Importer.DataImporter.ParseMainData: a missing `id` raises `NoMethodError` in Ruby. The model returns `false` instead and keeps the data of the earlier territories, as the exception would.
- The constants module `TelephoneNumber::PhoneData` is not part of this model. Its keys appear here under the names the passes use: `formats`, `validations`, `national_prefix_formatting_rule` and `national_prefix_for_parsing`.
- In Ruby each pass mutates the country hash in place through `@data[id]`. The model threads the record through the passes and stores the result. Aliasing of that hash is not modelled, because nothing else holds a reference to it.
