# Student record store — a Dafny model

A terminal program, `main.py`, keeps a list of student records. Each record
has a roll number, a name, an age and a CGPA. The operator can add, search,
update, delete, sort and summarise records. This project models the part of
`StudentManagementSystem` that holds and changes that list:

- the four field validators;
- the append of a new record;
- the four searches;
- the single-field update;
- the delete through `list.remove`;
- the stable sort on four keys;
- the age and CGPA bucket counts of the statistics screen.

The terminal prompts, colours, JSON persistence and CSV export are not
modelled.

Modules, one per concern:

- `Text` (`text.dfy`) — Python's `str.isalpha`, `str.isspace`, `str.lower`,
  `str.strip`, `in` on strings and `<=` on strings. The character classes
  and lower-casing are modelled on ASCII; substring search and string
  comparison work on any code points.
- `Seqs` (`seqs.dfy`) — a list comprehension with a condition (`Filter`), a
  first-match scan (`FindFirst`) and `list.remove` (`RemoveFirst`), with
  their laws.
- `Records` (`records.dfy`) — the record datatype, the validators, and the
  "roll numbers are pairwise distinct" property (`UniqueRolls`).
- `Searching` (`searching.dfy`) — the four search criteria and
  `search_student`.
- `Sorting` (`sorting.dfy`) — the four sort orders and a stable sort
  `SortBy`. It is proved sorted, a permutation and stable. It is also proved
  to be the only ordering that is both sorted and stable, so it is exactly
  what Python's `list.sort` produces.
- `Stats` (`stats.dfy`) — the age and CGPA groups and the counting loop.
- `Store` (`store.dfy`) — the class `StudentManagementSystem`. Its field
  `students` is the list. Add, update, delete and sort are methods that
  reassign it.

Roll-number uniqueness is not a class invariant. The loaded file may already
hold duplicates, and the program never checks them. Instead, every mutator
proves that distinct roll numbers stay distinct, and that valid records stay
valid.

Three behaviours of the code that the model keeps:

- `list.remove` compares with `==`, so delete removes the first record
  equal to the selected one.
- `validate_name` accepts any whitespace character, not only the space.
- The CGPA group labelled ">3.5" also receives 3.5 itself.

## Model

| member | source | states |
|---|---|---|
| Records.ValidName | main.py:55-57 | validate_name: the stripped name is not empty and every character is a letter or whitespace |
| Records.ValidRollNumber | main.py:59-64 | validate_roll_number: the roll number is positive and no stored record has it |
| Records.ValidAge | main.py:66-68 | validate_age: 5 <= age <= 120 |
| Records.ValidCgpa | main.py:70-72 | validate_cgpa: 0.0 <= cgpa <= 4.0 |
| Records.ValidFields | main.py:55-72 | a record every field of which passes its validator |
| Records.AllValid | main.py:55-72 | every stored record passes all four validators |
| Records.UniqueRolls | main.py:59-64 | no two stored records share a roll number, the property validate_roll_number protects |
| Records.ValidNameIff | main.py:55-57 | a name is accepted iff it holds a non-whitespace character and every character is a letter or whitespace |
| Records.StripKeepsVerdict | main.py:82-83 | stripping the typed name never changes the validator's verdict, and an accepted stripped name starts and ends with a non-whitespace character |
| Records.HasRoll | main.py:59-64 | the roll-number scan is true iff some stored record has that roll number |
| Records.ValidatorBoundaries | main.py:66-72 | ages 5 and 120 and CGPAs 0.0 and 4.0 are accepted; 4, 121, -0.01 and 4.01 are rejected |
| Records.AppendKeepsUnique | main.py:59-64 | appending a record whose roll number passes validate_roll_number keeps roll numbers pairwise distinct |
| Records.AppendKeepsValid | main.py:117-124 | appending a record that passes all four validators keeps every record valid |
| Records.PermutationKeepsUnique | main.py:315-324 | any reordering of a list with distinct roll numbers has distinct roll numbers |
| Text.IsAlpha | main.py:57 | `str.isalpha` on one character: an ASCII letter |
| Text.IsSpace | main.py:57 | `str.isspace` on one character: space, tab to carriage return, and U+001C to U+001F |
| Text.Strip | main.py:82 | `str.strip()`: leading and trailing whitespace removed |
| Text.IsSubstring | main.py:189 | `needle in hay` on strings: the needle occurs as a contiguous block (the empty needle everywhere) |
| Text.LexLe | main.py:318 | Python's `<=` on strings: lexicographic by code point, a proper prefix first |
| Text.Lower | main.py:188-189 | `str.lower()`: every character lower-cased, length kept |
| Text.SameIgnoringCase | main.py:188-189 | two characters are equal or the same ASCII letter in the two cases |
| Text.LowerSameIgnoringCase | main.py:188-189 | a string and its lower-cased form differ only in letter case |
| Text.StripEmptyIff | main.py:57 | `strip()` yields the empty string iff every character is whitespace |
| Text.ToLower | main.py:188-189 | lower-casing a character never yields an upper-case letter, keeps letters letters, and leaves every other character as it is |
| Text.LowerIgnoresCase | main.py:188-189 | strings that differ only in the case of their letters lower-case to the same string |
| Text.LowerChars | main.py:188-189 | a lower-cased string holds no upper-case letter and keeps every character that was not an upper-case letter |
| Text.LowerIdempotent | main.py:188-189 | lower-casing twice gives the same string as lower-casing once |
| Text.LexLeTotal | main.py:318 | the string order used for the name sort is total |
| Text.LexLeTrans | main.py:318 | the string order is transitive |
| Text.LexLeAntisym | main.py:318 | two strings each ordered before the other are equal |
| Seqs.Filter | main.py:189 | `[x for x in s if p(x)]`: the elements satisfying p, in the order of s |
| Seqs.FilterMembers | main.py:189 | a comprehension keeps exactly the elements satisfying its condition |
| Seqs.FilterMultiset | main.py:189 | a comprehension keeps every satisfying element as often as it occurs and drops the rest |
| Seqs.FilterConcat | main.py:189 | a comprehension over a concatenation is the concatenation of the comprehensions, so stored order is kept |
| Seqs.FilterOne | main.py:192 | a comprehension yields the single element at index i iff no other index satisfies the condition |
| Seqs.FindFirst | main.py:182-185 | the scan returns the first satisfying index, or nothing iff no element satisfies |
| Seqs.RemoveFirst | main.py:289 | `list.remove`: on a list holding x, one element fewer; the first element equal to x is the one taken out |
| Seqs.RemoveFirstAt | main.py:289 | `list.remove` deletes exactly the first equal element and keeps the others in order |
| Seqs.RemoveFirstMultiset | main.py:289 | `list.remove` leaves one copy fewer of the element and changes nothing else |
| Searching.Matches | main.py:180-211 | the four search conditions: equal roll number, the lower-cased query a substring of the lower-cased name, lo <= age <= hi, lo <= cgpa <= hi |
| Searching.Results | main.py:189-207 | the `matches` list the name, age-range and CGPA-range searches build: the stored records that satisfy the query, in stored order |
| Searching.ResultsExact | main.py:187-211 | name, age-range and CGPA-range results are exactly the matching records, each as often as stored, in stored order |
| Searching.SingleResult | main.py:190-192 | the results are the one record at index i iff no other record matches |
| Searching.NameSearchIgnoresCase | main.py:188-189 | lower-casing the query or the stored name does not change a name match |
| Searching.NameQueryCaseInsensitive | main.py:188-189 | two name queries differing only in letter case find the same records, and changing the case of a stored name does not change whether it is found |
| Searching.SearchStudent | main.py:161-222 | empty list gives nothing; a roll search selects the first record with that roll number, or nothing iff none has it; the other searches select a record iff there is exactly one result, and it is that result |
| Sorting.KeyLe | main.py:314-324 | the four orders: roll number, lower-cased name and age ascending; CGPA descending |
| Sorting.SameKey | main.py:314-324 | two records have equal sort keys |
| Sorting.Sorted | main.py:314-324 | every record may stand before every later one under the chosen order |
| Sorting.KeyLeTotal | main.py:314-324 | any two records are comparable under each sort key |
| Sorting.KeyLeTrans | main.py:314-324 | each sort order is transitive |
| Sorting.SameKeyIff | main.py:314-324 | two records tie iff the key the sort uses (roll number, lower-cased name, age, CGPA) is equal |
| Sorting.NameSortIgnoresCase | main.py:318 | records whose names differ only in letter case tie in the name sort |
| Sorting.Insert | main.py:314-324 | inserting into a sorted list gives a sorted list holding one more element |
| Sorting.SortBy | main.py:314-324 | the sorted list is a permutation of the input and is ordered by the chosen key |
| Sorting.SortStable | main.py:314-324 | records with equal keys keep their relative order, also for the descending CGPA sort |
| Sorting.SortedStableEqual | main.py:314-324 | two lists sorted by the same key that agree on the order of every run of ties are equal |
| Sorting.SortByUnique | main.py:314-324 | every sorted and stable reordering of the list is SortBy's result |
| Sorting.SortKeepsUnique | main.py:314-324 | sorting keeps roll numbers pairwise distinct |
| Stats.AgeBand | main.py:376-381 | an age is in exactly one of the groups <18, 18-22, 23-25 and >25 |
| Stats.CgpaBand | main.py:390-395 | a CGPA is in exactly one of <2.0, [2.0, 3.0), [3.0, 3.5) and >= 3.5 |
| Stats.Histogram.Bump | main.py:378-381 | one increment raises exactly one counter by one |
| Stats.Ages | main.py:367 | `ages`: the ages of the stored records, in order |
| Stats.Cgpas | main.py:368 | `cgpas`: the CGPAs of the stored records, in order |
| Stats.Members | main.py:376-395 | the values that fall in one group, in order |
| Stats.Counts | main.py:377-381 | the counters after a pass over the values, bumping each value's group |
| Stats.BandsPartition | main.py:376-395 | the four groups' sizes add up to the number of records |
| Stats.CountsCorrect | main.py:377-381 | after the pass each counter equals the size of its group |
| Stats.Tally | main.py:377-381 | the counting loop leaves each counter equal to the number of values in its group, and the counters sum to the total |
| Stats.ShowStatistics | main.py:357-395 | nothing for an empty list; otherwise the total and, for age and for CGPA, the count of each group, which sums to the total |
| Store.Acceptable | main.py:242-267 | the update's re-validation: the new name (stripped), age or CGPA passes its field's validator |
| Store.Apply | main.py:242-267 | the update's write: the chosen field (name stripped, age or CGPA) set to the new value |
| Store.ApplyTouchesOneField | main.py:242-263 | an update writes the new value into the chosen field and leaves the roll number and the other fields alone |
| Store.ApplyKeepsValid | main.py:242-263 | writing an accepted value keeps a valid record valid |
| Store.ReplaceKeepsRolls | main.py:245-263 | overwriting a record without touching its roll number keeps roll numbers distinct |
| Store.UpdateKeepsValid | main.py:242-267 | an accepted update keeps every record valid |
| Store.DeleteKeepsRolls | main.py:289 | delete removes the first record equal to the selected one, which is the selected one when roll numbers are distinct; the deleted roll number is then gone |
| Store.DeleteKeepsValid | main.py:289 | deleting keeps every remaining record valid |
| Store.StudentManagementSystem.constructor | main.py:17-18 | the store starts with the loaded records |
| Store.StudentManagementSystem.AddStudent | main.py:81-124 | the record is appended iff the stripped name, roll number, age and CGPA pass, and the outcome names the first field that fails; otherwise nothing changes; distinctness and validity are kept |
| Store.StudentManagementSystem.UpdateStudent | main.py:242-267 | the chosen field of the selected record is overwritten iff the new value passes its validator; otherwise nothing changes; roll numbers never change |
| Store.StudentManagementSystem.DeleteStudent | main.py:289 | exactly one record goes, the first equal to the selected one; the rest keep their order; with distinct roll numbers it is the selected record and its roll number is gone |
| Store.StudentManagementSystem.SortStudents | main.py:314-324 | the list becomes SortBy's result: sorted, a permutation, stable; distinctness and validity are kept |

## Left out

- Loading and saving the JSON file and the timestamped backups (main.py:21-49) are file I/O and clock reads. The constructor takes the loaded list as a parameter, and no save is modelled.
- CSV export (main.py:339-355) is file I/O.
- Screen clearing, colours, table printing, menu text and the `run` loop are not modelled. The read-only operations `SearchStudent` and `ShowStatistics` take the list as a parameter rather than reading the class field.
- Store.StudentManagementSystem.AddStudent: models one pass through the prompts. A rejected value ends the call with an outcome naming the field, where the program asks again until the value passes. Parsing of typed numbers is not modelled; values arrive already parsed.
- Store.StudentManagementSystem.UpdateStudent: the search that selects the record is a separate call (`SearchStudent`). "Cancel" and invalid menu choices change nothing and are not modelled. The selected dict is modelled as its index in the list.
- Searching.SearchStudent: the "Back to Menu" choice and an invalid menu choice (main.py:213-217), which return nothing, are not modelled; neither are unparsable numbers, which also return nothing.
- Store.StudentManagementSystem.SortStudents: the "Cancel" choice and an invalid menu choice (main.py:326-331), which leave the list unchanged, are not modelled; an empty list, which the program does not sort, is left unchanged by SortBy as well.
- Store.StudentManagementSystem.DeleteStudent: the "(y/n)" confirmation is not modelled. A "no" answer changes nothing.
- Average age, average CGPA and bucket percentages (main.py:371-372, main.py:385, main.py:399) are floating-point division used only for display.
- CGPA is a `real`. Floating-point rounding and NaN are not modelled. The modelled code only compares CGPAs.
- `str.isalpha`, `str.isspace` and `str.lower` are modelled on ASCII only. A non-ASCII character is neither a letter nor whitespace and is not changed by lower-casing, so names with accented letters are rejected here but accepted by Python.
- Python's `list.sort` is specified by its result (`SortBy`, proved to be the unique sorted and stable ordering). Timsort's steps are not modelled.
