# Movie catalog: the linked record store and its comma-separated file format

This project models the core of a small console movie catalog written in C++.
There are two parts.

- **The record store.** `MovieList` is a hand-wired doubly linked list of `Movie`
  nodes, each holding a name, a genre and a rating. It appends at the tail and
  finds the first node with a given name. It filters by exact rating, unlinks the
  first node with a given name, overwrites the fields of the first node with a
  given name in place, and clears the whole list.
- **The file format.** Every record is one line, `name,genre,rating`. Reading a
  line locates its first and its last comma. The line is accepted only when the
  two positions differ. The name is what precedes the first comma, the genre is
  what lies between the two commas, and the rating text is what follows the last
  comma.

The Dafny model is in five modules:

- `Wrappers` (`wrappers.dfy`): `Option`.
- `Catalog` (`catalog.dfy`): the catalog as a value, a `seq<Record>` in list
  order. It also defines the effect of each name- or rating-keyed operation on
  that sequence (`FindFirst`, `FilterByRating`, `DeleteFirst`, `EditFirst`),
  with lemmas that characterise each one.
- `LineCodec` (`line_codec.dfy`): the line format as pure functions (`FormatLine`,
  `FirstComma`, `LastComma`, `ParseLine`). It proves the acceptance rule, the
  clean split of accepted lines, the exact round-trip condition, and how a name
  with a comma is misread.
- `Persistence` (`persistence.dfy`): saving a catalog as lines (`SaveLines`) and
  loading lines as a filter-map (`LoadRecords`). It proves the save/load round
  trip, the loss of a record whose name holds a comma, and that malformed files
  load nothing.
- `MovieLists` (`movie_list.dfy`): the linked list itself, as a class `MovieList`
  over node objects of class `Movie`.
  - Ghost fields: `Nodes` (the nodes from head to tail), `Contents` (the records
    they hold) and `Repr` (the footprint).
  - `Valid()` ties `head`, `tail` and every `next`/`prev` pointer to `Nodes`.
  - Each method walks or rewires the pointers as the C++ does. Its contract is
    stated against `Contents` through the `Catalog` functions.

The rating is a C++ `float` that the program only stores, copies and compares with
`==`. It is therefore the opaque type `Catalog.Rating` with equality. Writing a
rating as text and reading it back (`operator<<` on a float, `stof`) are supplied as
function parameters `formatRating` and `parseRating`.

A reader might expect that a record round-trips whenever its name and genre are
free of commas. The code splits at the first and the last comma, so its own
condition is different, and the model follows the code. A comma in the genre is
harmless. A comma in the name is not, and neither is a comma in the rating text.
`LineCodec.RoundTripIff` states the exact condition, and
`LineCodec.NameWithDelimiterSplitsEarly` says how a comma in the name is misread.

## Model

| member | source | states |
|---|---|---|
| Catalog.FindFirst | project.cpp:54-63 | The scan by name yields a position inside the list, or none. Its meaning is given by FindFirstSpec, FindFirstAt and FindFirstConcat. |
| Catalog.FilterByRating | project.cpp:80-86 | The selection by exact rating never holds more records than the list. Its meaning is given by FilterByRatingSelects, FilterConcat, FilterSingleton and FilterEmptyIff. |
| Catalog.DeleteFirst | project.cpp:94-109 | Removing by name shortens the list by at most one record. Its meaning is given by DeleteFirstRemovesFirstMatch and DeleteRevealsNextDuplicate. |
| Catalog.EditFirst | project.cpp:117-130 | Editing by name keeps the length of the list. Its meaning is given by EditFirstOverwritesFirstMatch. |
| Catalog.FindFirstSpec | project.cpp:54-63 | The answer is a position holding the name, with no earlier record of that name. "Not found" is reported exactly when no record has the name. |
| Catalog.FindFirstAt | project.cpp:56-59 | A position that holds the name, with no occurrence before it, is the answer the search gives. |
| Catalog.FindFirstConcat | project.cpp:54-63 | In front of a prefix without the name, the first match of the rest moves by the prefix's length. The name is found in the whole iff it is found in the rest. |
| Catalog.FilterByRatingSelects | project.cpp:80-86 | A record is selected iff it is in the list and its rating equals the threshold exactly. The selection never holds more records than the list. |
| Catalog.FilterConcat | project.cpp:80-86 | The selection from two consecutive stretches of the list is the first stretch's selection followed by the second's, so list order is kept. |
| Catalog.FilterSingleton | project.cpp:81-84 | A single record is selected iff its rating equals the threshold. |
| Catalog.FilterEmptyIff | project.cpp:74-90 | "No movies found" (the `found` flag stays false) happens exactly when no record carries the threshold. |
| Catalog.DeleteFirstRemovesFirstMatch | project.cpp:94-109 | Removing by name takes out the first record with that name and nothing else; the survivors keep their order. A miss leaves the list unchanged. |
| Catalog.DeleteRevealsNextDuplicate | project.cpp:94-109 | After the first record of a name is deleted, a later record of that name becomes the new first match, one position earlier than before. If there is no later one, the name is no longer found. |
| Catalog.EditFirstOverwritesFirstMatch | project.cpp:117-130 | Editing by name replaces the first matching record with the new fields at the same position. The length and every other record are unchanged, and a miss changes nothing. |
| LineCodec.FirstComma | project.cpp:170 | `find(',')`: the position holds a comma and none comes before it. There is no position exactly when the line has no comma. |
| LineCodec.LastComma | project.cpp:171 | `rfind(',')`: the position holds a comma and none comes after it. There is no position exactly when the line has no comma. |
| LineCodec.FormatLine | project.cpp:154 | The written line is two characters longer than its three fields together, and the delimiter sits right after the name and right after the genre. Its partners are ParseLineSplits, RoundTripIff and ParseJoined. |
| LineCodec.ParseLine | project.cpp:170-175 | An accepted line is two characters longer than its three fields together, so only the two delimiters are dropped. Its meaning is given by ParseLineAccepts, AcceptedIffAtLeastTwo, ParseLineSplits and RoundTripIff. |
| LineCodec.ParseLineAccepts | project.cpp:172 | A line is accepted iff it has commas at two different positions. |
| LineCodec.AcceptedIffAtLeastTwo | project.cpp:170-172 | A line is accepted iff it holds at least two commas, so lines with zero or one comma are skipped. |
| LineCodec.ParseLineSplits | project.cpp:173-175 | An accepted line is exactly name, comma, genre, comma, rating text, and its name and rating text hold no comma. |
| LineCodec.RoundTripIff | project.cpp:170-175 | A line written as `name,genre,ratingText` reads back as the same three fields iff the name and the rating text hold no comma; the genre may. |
| LineCodec.NameWithDelimiterSplitsEarly | project.cpp:173-174 | When the written name holds a comma, the name read back is the part before its first comma. The rest of the name, a comma and the genre are read as the genre. |
| LineCodec.ParseJoined | project.cpp:170-175 | Three pieces joined by commas, with no comma in the first or the last piece, read back as those three pieces. |
| Persistence.SaveLines | project.cpp:152-156 | The save writes exactly as many lines as there are records. Its meaning is given by SaveLinesAt and SaveLoadRoundTrip. |
| Persistence.LoadRecords | project.cpp:169-178 | The load never yields more records than the file has lines. Its meaning is given by LoadOne, LoadConcat, LoadPrefixStep, SaveLoadRoundTrip and MalformedFileLoadsNothing. |
| Persistence.SaveLinesAt | project.cpp:152-156 | The save writes one line per record, in list order, and line i is record i's name, genre and rating text joined by commas. |
| Persistence.LoadOne | project.cpp:170-177 | A single line adds one record, built from its three fields, when it is accepted and nothing otherwise. |
| Persistence.LoadConcat | project.cpp:169-178 | Loading the lines of two stretches of a file adds the records of the first stretch and then those of the second, so file order is kept. |
| Persistence.LoadPrefixStep | project.cpp:169-178 | Reading one more line of the file appends what that line alone loads. |
| Persistence.LoadStep | project.cpp:169-177 | What the first k lines loaded, followed by what line k loads, is what the first k + 1 lines load. |
| Persistence.SaveLoadRoundTrip | project.cpp:153-176 | Loading what the save writes gives back the same records in the same order. This needs each name and rating text to be free of commas and reading each rating's text to give the rating back. |
| Persistence.NameWithDelimiterIsLost | project.cpp:154-175 | A record whose name holds a comma does not survive a save and load. |
| Persistence.MalformedFileLoadsNothing | project.cpp:169-178 | A file whose every line has fewer than two commas loads no record. |
| MovieLists.Movie.constructor | project.cpp:26 | A new node holds the given name, genre and rating, and has no neighbours. |
| MovieLists.MovieList.constructor | project.cpp:22 | A new list is valid and empty, with head and tail null. |
| MovieLists.MovieList.Distinct | project.cpp:11-19 | In a valid list no node occurs twice between head and tail. |
| MovieLists.MovieList.Unique | project.cpp:11-19 | In a valid list the node at a position occurs at no other position. |
| MovieLists.MovieList.WellLinked | project.cpp:27-33 | In a valid list head is null iff tail is null, head has no prev and tail has no next. For every node, next and prev are mutually inverse. |
| MovieLists.MovieList.AddMovie | project.cpp:25-33 | The record is appended at the end and every earlier record is kept in order. The new node is the fresh tail, and it also becomes the head when the list was empty. The list stays valid. |
| MovieLists.MovieList.SearchMovie | project.cpp:54-63 | Reports the record at the first position holding the name, or "not found" when the search finds none. The list is not changed. |
| MovieLists.MovieList.SearchMoviesByRating | project.cpp:67-90 | An empty list is reported on its own. Otherwise the result is exactly the records whose rating equals the threshold, in list order. |
| MovieLists.MovieList.DeleteMovie | project.cpp:94-113 | Reports success iff some record has the name. The new contents are those with the first such record removed, and exactly the node at that position leaves the nodes and the footprint. A miss changes nothing, the footprint included, and the list stays valid. |
| MovieLists.MovieList.Unlink | project.cpp:105-111 | Unlinking the node at position i removes exactly that node and its record from the list and the footprint, and keeps the list valid. |
| MovieLists.MovieList.Splice | project.cpp:105-109 | The neighbours of position i point at each other, and head or tail move past it when it is at an end. Every other link and every field is unchanged. |
| MovieLists.MovieList.Neighbours | project.cpp:105-106 | In a valid list the `prev` and `next` of the node at position i are the nodes at positions i - 1 and i + 1, or null at an end. Each occurs at no other position. |
| MovieLists.MovieList.Forget | project.cpp:105-111 | Once position i is bypassed, dropping it from the nodes, the records and the footprint leaves a valid list. |
| MovieLists.MovieList.BypassedValid | project.cpp:105-109 | Once position i is bypassed, the nodes without it form a valid list. |
| MovieLists.MovieList.EditMovie | project.cpp:117-130 | Reports success iff some record has the old name. The contents become those with the first match overwritten at its position, and the nodes, head and tail stay the same. |
| MovieLists.MovieList.Overwrite | project.cpp:120-123 | Overwriting the node at position i changes only record i; every node, head and tail stay. |
| MovieLists.MovieList.ClearMovies | project.cpp:134-140 | The list ends valid and empty, with head and tail null and only the list object in the footprint, also when it was already empty. |
| MovieLists.MovieList.SaveToFile | project.cpp:152-156 | The lines written are exactly the format of the contents, one line per record from head to tail. |
| MovieLists.MovieList.LoadFromFile | project.cpp:169-178 | The records of the accepted lines are appended after the existing contents, in file order. The list stays valid. |
| MovieLists.MovieList.LoadLine | project.cpp:170-177 | One line of the file appends its record when the first and the last comma differ, and otherwise changes nothing. |

## Left out

- File handling: opening `movies.txt`, the "error saving" and "no existing file" branches, and closing the file are not modelled. `SaveToFile` returns the lines it would write, and `LoadFromFile` takes the file's lines as a sequence.
- Splitting the file into lines with `getline` is not modelled. A field that holds a newline is outside the model.
- The call to `saveToFile` at the end of `addMovie`, `deleteMovie`, `editMovie` and `clearMovies` is not modelled. It is the file I/O above, and the image it writes is `SaveLines` of the contents after the operation. The same holds for the nested save that `addMovie` performs for each line during a load.
- Console output is not modelled. That covers `displayMovies`, which only prints, every message string, and the interactive `main` menu with its `cin` handling. `SearchMovie` returns the record it finds and `SearchMoviesByRating` returns the matches, where the C++ prints them.
- Conversion between a float and its text is replaced by the parameters `formatRating` and `parseRating` (`stof` and `operator<<` are library code). The exception `stof` raises on text that is not a number is not modelled.
- Persistence.SaveLoadRoundTrip: its hypothesis `Persistable` asks that reading a rating's text gives the rating back. The program's own pair of conversions does not meet this for every float. `operator<<` writes 6 significant digits (project.cpp:154), so 1.2345678f is written as "1.23457", and `stof` (project.cpp:175) reads that back as a different float. In practice the round trip therefore holds only for ratings that 6 significant digits represent exactly.
- Floating-point equality is not modelled: `Rating` has reflexive `==`. For a NaN rating the source's `rating == threshold` is never true, and the model does not capture that.
- `delete` of nodes is not modelled. An unlinked or cleared node leaves `Repr`, but freeing it is not represented.
- The destructor (project.cpp:182-184) is not modelled. It calls `clearMovies`, which ends with `saveToFile` (project.cpp:142). So every normal exit through menu choice 8 (project.cpp:244-252) truncates `movies.txt` to zero lines, and the next `loadFromFile` at start-up (project.cpp:188) loads nothing. Across a restart of the program this undoes the save/load round trip that `Persistence.SaveLoadRoundTrip` proves. The round trip holds only between a save and a load inside one run, or for a file written by a run that did not exit normally.
- `std::string::npos` is represented by `None` of `Option`. The sizes of `size_t` and of strings are unbounded in the model.
