# Address parsing: the record-level core of `processing`

This project models the record-processing core of `address_parser.py` and
proves properties of it. `address_parser.py` post-processes the results of a
geocoder. It keeps the records the geocoder could not match, repairs post-office
box addresses, and segments addresses on an anomaly marker.

- `py_text.dfy` (module `PyText`) covers the Python built-ins the core relies on:
  - `str.lower`, `str.isalnum` and `str.strip`, restricted to ASCII;
  - `str.split(" ")` and `" ".join`, which are proved inverse to each other;
  - `list.index` and `list.remove`, which act on the first equal element; a
    `ValueError` is `None`;
  - the substring test `pat in s`, and the match position of `re.search` on a
    literal pattern.
- `po_box.dfy` (module `PoBox`) covers the address rewriting inside
  `ProcessPOBOX`. Pure functions specify it:
  - `Tokens` lower-cases and splits the address;
  - `ForwardStep` drops the alphanumeric box number after the first marker;
  - `BackScan` strips P.O. tokens right to left over a snapshot;
  - `Reduce` and `Normalize` remove the marker, then join and strip.

  The imperative methods `FixAddress`, `ReduceTokens` and `BackScanTokens`
  change the token list step by step, as the source does, and are proved equal
  to those functions. Lemmas prove three further facts. For a marker that is
  not itself a P.O. token, such as the default `box`, a record is skipped in
  exactly two cases: it has no marker, or its first marker is its last token.
  For such a marker, a `list.remove` inside the rewriting never fails. No token
  is invented. Further lemmas state what is removed, by position, when tokens
  are not repeated.
- `po_box_examples.dfy` (module `PoBoxExamples`) works through the three
  addresses of the `ProcessPOBOX` docstring and three edge cases.
- `address_parser.dfy` (module `AddressParser`) covers the record level.
  - A record is a mutable dictionary, so it is a `Record` object with a `fields`
    map. A dataset maps the integer primary key to a record, and the filtered
    datasets share their records with `self.data`.
  - `Processing` holds `data`, `unmatchedData` and `matchedData`. Its methods
    are `SelectUnmatched` (line 30), `OutputMatched` (line 131),
    `IdentifyAnomaly` and `ProcessPOBOX`.
  - Each of these methods is proved against a specification function:
    `FilterDataset`, `Matched`, `Segmented` and `FixPrefix` of the records'
    state before the call, and `Collect` of their state after the loop of
    `ProcessPOBOX`.
  - A `KeyError` is the `Err(MissingField(name))` outcome.

Three behaviours of the code that a reader might not expect:

- A first marker in first position, followed by another token, is not skipped.
  The backward scan runs over an empty slice, and the record is fixed
  (`PoBoxExamples.LeadingBox`).
- When the anomaly starts the value, `IdentifyAnomaly` leaves the value exactly
  as it was. Line 181 computes `replace(theAnomaly, "")` but discards the result
  (`AddressParser.SegmentKeepsLeading`).
- Token deletion is `list.remove`, which deletes the first equal token. That
  is not always the scanned position: "5 P O Box 5" becomes "p o 5"
  (`PoBoxExamples.RepeatedNumber`).

## Model

| member | source | states |
|---|---|---|
| PyText.Lower | address_parser.py:207 | `s.lower()` keeps the length and lower-cases each ASCII capital, leaving every other character as it is |
| PyText.Strip | address_parser.py:229 | `strip()` gives the contiguous part of the input left once only whitespace is cut from both ends, and that part neither starts nor ends with whitespace |
| PyText.IsAlnum | address_parser.py:215 | definition of `str.isalnum()` on a byte string: non-empty and made only of ASCII letters and digits; `PoBox.ForwardStep` and `PoBox.ForwardStepMultiset` state what it decides |
| PyText.IsSpace | address_parser.py:229 | definition of the whitespace of Python 2 byte strings (tab, line feed, vertical tab, form feed, carriage return, space), which `PyText.Strip` cuts off |
| PyText.Split | address_parser.py:207 | `split(" ")` gives at least one piece and no piece holds the separator |
| PyText.JoinSplit | address_parser.py:207 | joining the pieces of `split(" ")` with spaces gives the string back |
| PyText.Join | address_parser.py:229 | definition of `" ".join`: the tokens with one separator between neighbours; `PyText.JoinSplit` and `PyText.SplitJoin` make it the inverse of `split(" ")` |
| PyText.SplitJoin | address_parser.py:229 | splitting a join of separator-free tokens gives the tokens back |
| PyText.IndexOf | address_parser.py:211 | `list.index` gives the first position of the element, and fails exactly when it is absent |
| PyText.IndexOfAt | address_parser.py:211 | an element with no earlier copy is found at its own position |
| PyText.Remove | address_parser.py:216 | `list.remove` deletes the element at the first position of its argument, and fails exactly when the argument is absent |
| PyText.RemoveMultiset | address_parser.py:223 | `list.remove` takes away exactly one copy of its argument |
| PyText.Find | address_parser.py:174 | the match position of `re.search` on a literal pattern is the first occurrence, and there is no match exactly when the pattern occurs nowhere |
| PyText.Contains | address_parser.py:169 | definition of `theAnomaly in s`: the pattern occurs at some position; `PyText.FindIffContains` ties it to `re.search` |
| PyText.FindIffContains | address_parser.py:169-174 | `re.search` finds a match exactly when `theAnomaly in address` holds |
| PyText.PrefixBeforeFirstOccurrence | address_parser.py:178-179 | the part before the first occurrence of a non-empty pattern does not contain it |
| PoBox.Tokens | address_parser.py:207 | the lower-cased pieces of `split(" ")`: at least one, none holding a space or a capital |
| PoBox.ForwardStep | address_parser.py:215-216 | a non-alphanumeric token after the marker leaves the list alone; an alphanumeric one deletes its first copy, at or before the position after the marker, keeping the order of the rest, so the token after the marker goes when it has no earlier copy |
| PoBox.PrefixRun | address_parser.py:219-226 | the backward scan visits exactly the longest run of P.O. tokens that ends the snapshot |
| PoBox.BackScan | address_parser.py:219-226 | a successful scan removes exactly as many tokens as the P.O. run ending the snapshot; `PoBox.BackScanMultiset`, `PoBox.BackScanByPosition` and `PoBox.BackScanSucceeds` say which and when it succeeds |
| PoBox.AfterForward | address_parser.py:219-228 | after the forward step, the only way to be skipped is a failing `list.remove` |
| PoBox.Reduce | address_parser.py:211-228 | the record is skipped for lack of a marker exactly when there is none, and for a marker at the end exactly when the first marker is the last token |
| PoBox.Normalize | address_parser.py:229-231 | the record is skipped exactly when `Reduce` skips it and for the same reason; a stored `fixedAddress` neither starts nor ends with whitespace; `PoBox.SkipCases` and `PoBox.NormalizedIsLowerCase` carry its other properties |
| PoBox.BackScanTokens | address_parser.py:219-226 | the `for` loop over the reversed slice, with its `break`, computes the backward scan |
| PoBox.ReduceTokens | address_parser.py:211-228 | the in-place `index`/`remove` steps on `addressElements` compute `Reduce` |
| PoBox.FixAddress | address_parser.py:207-229 | the loop body for one address computes the value stored as `fixedAddress`, or why none is stored |
| PoBox.ForwardStepMultiset | address_parser.py:215-216 | the forward step takes away one copy of an alphanumeric box number and nothing otherwise |
| PoBox.BackScanSucceeds | address_parser.py:219-223 | the `remove` on line 223 never fails when the snapshot is drawn from the list |
| PoBox.BackScanMultiset | address_parser.py:219-226 | the backward scan takes away one copy of each token of the P.O. run and keeps every other token |
| PoBox.ReduceMultiset | address_parser.py:211-228 | the kept tokens plus one marker are a sub-multiset of the input tokens: nothing is invented |
| PoBox.NeverRemoveFailed | address_parser.py:219-228 | with a marker that is not a P.O. token, neither `remove` on lines 223 and 228 can raise |
| PoBox.SkipCases | address_parser.py:210-239 | for a marker that is not itself a P.O. token, such as the default `box`, a record is left unfixed exactly when its tokens have no marker or its first marker is its last token |
| PoBox.NormalizedIsLowerCase | address_parser.py:207-229 | `fixedAddress` holds no capital letter |
| PoBox.BackScanByPosition | address_parser.py:219-226 | when the scanned tokens have no earlier copies, the scan deletes exactly the P.O. run and keeps everything before it |
| PoBox.AfterForwardByPosition | address_parser.py:219-228 | when the marker is not in the snapshot and no scanned P.O. token has an earlier copy, the scan and the marker's removal keep the tokens before the P.O. run followed by those after the marker |
| PoBox.ReduceByPosition | address_parser.py:211-228 | without repeated scanned tokens, the result is the tokens before the P.O. run followed by those after the marker and, when alphanumeric, its box number |
| PoBoxExamples.FrontStreet | address_parser.py:199 | the address joined from the `split(" ")` tokens of "P O Box 337  216 West Front Street #11" is fixed to the join of the tokens of "216 west front street #11" |
| PoBoxExamples.DocRoad | address_parser.py:199 | the address joined from the `split(" ")` tokens of "15355 Doc Rd Hwy 89 P.O. Box 717" is fixed to the join of the tokens of "15355 doc rd hwy 89" |
| PoBoxExamples.RouteBox | address_parser.py:199 | the address joined from the `split(" ")` tokens of "Rte 1 Box 147" is fixed to the join of the tokens of "rte 1" |
| PoBoxExamples.LeadingBox | address_parser.py:211-228 | "Box 12 Main St" is fixed to "main st": a leading marker is not skipped |
| PoBoxExamples.RepeatedNumber | address_parser.py:215-216 | "5 P O Box 5" is fixed to "p o 5", because `list.remove` deletes the first "5" |
| PoBoxExamples.TrailingBox | address_parser.py:215 | "PO Box" is left unfixed by the `IndexError` of a marker at the end |
| AddressParser.WithFix | address_parser.py:231 | a record gains `fixedAddress` exactly when its street field normalises, and no other field changes |
| AddressParser.FixPrefix | address_parser.py:203-239 | the records after part of the loop have the same keys as before |
| AddressParser.FixPrefixStep | address_parser.py:203-231 | one more round of the loop changes the visited record and no other |
| AddressParser.FirstMissing | address_parser.py:207 | the position of the first record without the street field, where the `KeyError` ends the loop |
| AddressParser.FidIndex | address_parser.py:241-242 | each FID names a record that has it and is on the right side of the fixed/unfixed split, and every such record's FID is present |
| AddressParser.FidIndexLastWins | address_parser.py:241-242 | on duplicate FIDs the record named is the last one in iteration order |
| AddressParser.FidIndexDistinct | address_parser.py:241-242 | with distinct FIDs each record is found under its own FID |
| AddressParser.Collect | address_parser.py:241-245 | the result fails with the FID `KeyError` exactly when a record lacks a FID; otherwise it holds the fixed records and the keys of the unfixed ones, by FID |
| AddressParser.FixedAndUnfixedDisjoint | address_parser.py:241-242 | no record is both fixed and unfixed |
| AddressParser.FixedAndUnfixedPartition | address_parser.py:241-242 | with distinct FIDs the two maps have disjoint FIDs that together are every FID, and each maps a FID to the record that carries it |
| AddressParser.ProcessedRecord | address_parser.py:203-239 | the loop changes no field but `fixedAddress`, and a record lacks `fixedAddress` exactly when it had none and is a skip case |
| AddressParser.WithFixIdempotent | address_parser.py:231 | fixing a record twice is fixing it once |
| AddressParser.FixPrefixIdempotent | address_parser.py:203-239 | a second run of the loop over the same records changes nothing |
| AddressParser.Flagged | address_parser.py:169 | definition of the selection test: the record has the field and its lower-cased value contains the anomaly |
| AddressParser.Selected | address_parser.py:169 | definition of the keys line 169 selects; `AddressParser.SelectedRecords` and `AddressParser.Processing.IdentifyAnomaly` tie it to the comprehension |
| AddressParser.Segment | address_parser.py:173-181 | a selected record gains `<key>_old` holding the old value, and no other field but `key` changes |
| AddressParser.SegmentTruncates | address_parser.py:178-179 | a later match cuts the value to a proper prefix that ends where the first occurrence starts and no longer contains the anomaly |
| AddressParser.SegmentKeepsLeading | address_parser.py:180-181 | a match at position 0 leaves the value as it was |
| AddressParser.ReselectSegmented | address_parser.py:169-181 | a segmented record would be selected again exactly when the anomaly started its value |
| AddressParser.Segmented | address_parser.py:172-181 | segmenting records keeps the set of keys |
| AddressParser.SelectedRecords | address_parser.py:169 | the comprehension picks exactly the flagged records, shared with `self.data` |
| AddressParser.FilterDataset | address_parser.py:186-192 | fails with `KeyError` exactly when a record lacks the field; otherwise keeps exactly the records whose field equals the value, shared and unchanged |
| AddressParser.FilterIdempotent | address_parser.py:190 | filtering the filtered dataset again gives it back |
| AddressParser.Matched | address_parser.py:131 | the matched records are exactly those of `data` whose key is not an unmatched key |
| AddressParser.MatchedPartition | address_parser.py:130-131 | with the unmatched records of line 30, matched and unmatched split `data`, and a record is matched exactly when its locator name is not a single space |
| AddressParser.FixRecord | address_parser.py:204-231 | the loop body turns a record's fields into `WithFix` of them |
| AddressParser.FixEntry | address_parser.py:231 | fixing one record of a dataset changes that entry alone |
| AddressParser.VisitRecord | address_parser.py:203-231 | one round of the loop extends the fixed prefix of the iteration order by one record |
| AddressParser.SegmentRecord | address_parser.py:172-181 | the loop body turns a selected record's fields into `Segment` of them |
| AddressParser.SegmentAll | address_parser.py:172-181 | the loop segments exactly the chosen records and leaves every other record unchanged |
| AddressParser.Processing.constructor | address_parser.py:24 | the object starts with the records read and empty unmatched and matched maps |
| AddressParser.Processing.SelectUnmatched | address_parser.py:30 | `unmatchedData` becomes the records whose locator name is a single space |
| AddressParser.Processing.OutputMatched | address_parser.py:130-131 | `matchedData` becomes the records of `data` not in `unmatchedData`, and nothing else changes |
| AddressParser.Processing.IdentifyAnomaly | address_parser.py:164-183 | with a record lacking the field, fails with `KeyError` and changes nothing; otherwise returns exactly the flagged records and segments them in place, leaving the others unchanged |
| AddressParser.Processing.ProcessPOBOX | address_parser.py:196-245 | fixes in place the records visited before the first one without the street field, then fails with that `KeyError`; otherwise fixes every record and returns the FID-keyed fixed and unfixed maps |

## Left out

- `__init__`, `WriteShapeFileToCSV` and `CreateGeometryDict` (lines 8-30, 73-108) are left out. They call arcpy and write files. The constructor receives the records and `SelectUnmatched` models line 30.
- `AddressParser.Processing.constructor` sets `unmatchedData` and `matchedData` to empty maps, which `__init__` does not do: in the source these attributes first exist once lines 30 and 131 assign them.
- `ReadCSV` and `WriteFile` (lines 37-71) are left out because they are CSV file I/O. Records come keyed by an integer already, and `int(line["FID"])` is not modelled. That no two keys share a dictionary is the `Distinct` precondition.
- `GeocodingResults` (lines 112-123) is left out: its only effect is printing percentages.
- `ParseAnomalies` (lines 152-162) builds dated file paths and writes files. Its calls of `IdentifyAnomaly` are calls of the modelled method.
- The projection and the geometry lookup of `OutputMatched` (lines 136-150) are left out. They are a field rename, an arcpy-derived coordinate lookup and a file write; only the complement on lines 130-131 is modelled.
- `Process` (lines 247-248) is an empty stub.
- `address_cleaning.py` is not part of this model. It is a scratch script of regular-expression calls on fixed strings.
- The `print` on line 171 is output only.
- The text operations follow Python 2 byte strings, which the source uses (its CSV files are opened in `'wb'` mode on lines 65 and 104): `str.lower`, `str.isalnum` and `str.strip` know only ASCII letters, digits and the whitespace tab, line feed, vertical tab, form feed, carriage return and space. Python 3 Unicode strings, with their wider sets of letters, digits and whitespace, are not modelled.
- `re.search` (line 174) is modelled as a literal substring search. That matches Python for patterns without metacharacters, such as `lot`, `#`, `apt` and `box`. A pattern holding metacharacters is not modelled.
- Python's dictionary iteration order is a parameter `order` of `ProcessPOBOX`, where it decides which record wins on a duplicate FID. In `IdentifyAnomaly` the records are distinct, so the order does not affect the outcome, and `SegmentAll` visits the keys in an arbitrary order.
- Exceptions other than `KeyError`, `ValueError` and `IndexError` are not modelled, such as those from an invalid regular expression.
