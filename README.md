# install-type1: name maps, dvips map lines, family grouping and destinations

`install-type1.py` installs Type1 fonts into a texmf tree. Most of it
runs external programs (`kpsewhich`, `find`, `latex`, `pltotf`,
`vptovf`) and moves files. This project models, in Dafny, the four
pieces of deterministic table and string logic inside it, and proves
what they do. Strings are Python 2 byte strings: each `char` of the model
stands for one byte, so `isspace`, `[:-1]` and `berry[0:3]` count bytes,
and a name in UTF-8 is several `char`s.

- **Name maps** (`name_maps.dfy`, module `NameMaps`). A map file is read
  with `readlines()`. Lines starting with `@c` are comments. The last
  character of every other line is dropped. The rest is split on runs of
  whitespace, and lines with fewer than five fields are skipped. The fifth
  field becomes the key for `(Berry name, full name)`, with later lines
  overwriting earlier ones. Several map files are merged in command-line
  order with `dict.update`. `ReadNameMap` and `MergeNameMaps` are the
  loops, proved against the functions `NameMap` and `Merged`.
- **Text primitives** (`text.dfy`, module `Text`). Python 2 `isspace` on
  bytes (space, tab, LF, VT, FF, CR), `string.split`, `readlines` and
  `s[:-1]`. It also provides the inverse operations used to state
  round trips: `Unwords` (join with spaces) and `Concat`.
- **dvips map fragment** (`dvips_maps.dfy`, module `DvipsMaps`). There is one
  line per name-map entry:
  `<berry with 8a->8r> \t\t <full> "TeXBase1Encoding ReEncodeFont" <8r.enc <<berry>.pfb`.
  `re.sub('8a', '8r', ·)` is `Recode8a`, a left-to-right, non-overlapping
  replacement of a literal. Python 2 dictionaries have no defined
  iteration order, so `DvipsMapString` chooses keys nondeterministically.
  It returns, as a ghost value, the order it used, and its contract holds
  for every such order.
- **Family grouping** (`families.dfy`, module `Families`). Each discovered
  path is reduced to its base name: `os.path.basename` followed by Python
  2.7 `os.path.splitext`, which leaves a name whose stem is dots alone
  (`.pfb`) whole (`ShortNameLeadingDots`). That name is
  looked up in the merged map. The path is appended to the group keyed by
  `berry[0:3]`. A missing name ends the run; `GroupFamilies` then returns
  `Failure(name)`.
- **Destinations** (`destinations.dfy`, module `Destinations`). The
  destination of a moved file is the texmf directory joined with
  `fonts/<ext>/<font_name_dir>`, except that `pfb` goes under `type1` and
  `fd` goes to `tex/latex/psnfss/`. Paths are built with
  POSIX `os.path.join`. `PlanRelocation` is the loop over
  `vf, afm, tfm, fd, pfb` and over the files `glob` selects. It returns
  the list of moves instead of performing them.

`wrappers.dfy` holds the `Option` and `Result` types.

One behaviour of the code is modelled as written. `l[:-1]` drops the last
character of a line even when that character is not a line feed. Take a
record of exactly five fields that ends the file without a line feed.
With a PFB name of two or more characters, it is stored under that name
minus its last character (`UnterminatedRecordLine`,
`LoadUnterminatedRecord`). With a one-character PFB name, only four
fields remain and the line is skipped (`UnterminatedShortKeyLine`,
`LoadUnterminatedShortKey`). A record with a sixth field keeps its key
and entry either way; only its last field is shortened, or lost when it
is one character long (`UnterminatedLongRecordLine`,
`UnterminatedOneCharFieldLine`).

## Model

| member | source | states |
|---|---|---|
| Text.Fields | install-type1.py:174 | `string.split`: every field it returns is non-empty and free of whitespace |
| Text.FieldsOfUnwords | install-type1.py:174 | splitting words joined by single spaces gives the words back |
| Text.FieldsAppend | install-type1.py:174 | two texts meeting at whitespace split into the fields of the first followed by those of the second |
| Text.DropLast | install-type1.py:172 | `l[:-1]` is the line without its last character, whatever that character is; on the empty line it is empty |
| Text.Lines | install-type1.py:167 | `readlines` never yields an empty line |
| Text.LinesOfConcat | install-type1.py:167 | `readlines` on a text made of complete lines gives exactly those lines back |
| Text.FieldsDropOneCharWord | install-type1.py:172-174 | when the last of several joined words is one character, `l[:-1]` followed by `split` gives the other words only |
| Text.LinesUnterminated | install-type1.py:167 | `readlines` on complete lines followed by a non-empty tail without a line feed gives those lines, then the tail |
| NameMaps.ParseLine | install-type1.py:169-182 | a line that yields an entry yields whitespace-free key, Berry name and full name |
| NameMaps.NameMap | install-type1.py:164-185 | reference definition of the dictionary a file's lines build: each line in turn either leaves it alone or sets its key; the lemmas below state its properties |
| NameMaps.ReadNameMap | install-type1.py:164-185 | the loop over `readlines()` builds exactly `NameMap` of the file's lines |
| NameMaps.NameMapKeys | install-type1.py:179-182 | a key is in a file's map if and only if some line of the file defines it |
| NameMaps.NameMapLastWins | install-type1.py:179-182 | the value for a key comes from the last line that defines that key |
| NameMaps.NameMapIgnores | install-type1.py:168-177 | a line that parses to nothing leaves the map as if the line were absent |
| NameMaps.CommentLineIgnored | install-type1.py:169-170 | a line starting with `@c` contributes no entry |
| NameMaps.ShortLineIgnored | install-type1.py:172-177 | a line with fewer than five fields after dropping its last character contributes no entry |
| NameMaps.NameMapWellFormed | install-type1.py:174-182 | every key, Berry name and full name in a file's map is a whitespace-free field |
| NameMaps.ParseRecordLine | install-type1.py:172-182 | writing a record of five or more fields as a line and parsing it gives key = fifth field and entry = (first, second) |
| NameMaps.UnterminatedRecordLine | install-type1.py:167-182 | a record of exactly five fields whose PFB name has two or more characters, on a line without a line feed, is keyed by that name minus its last character |
| NameMaps.UnterminatedShortKeyLine | install-type1.py:172-177 | a record of exactly five fields whose PFB name is one character, on a line without a line feed, keeps four fields and yields no entry |
| NameMaps.UnterminatedLongRecordLine | install-type1.py:167-182 | a record of six or more fields whose last field has two or more characters, on a line without a line feed, keeps its key and entry; only its last field is shortened |
| NameMaps.UnterminatedOneCharFieldLine | install-type1.py:167-182 | a record of six or more fields whose last field is one character, on a line without a line feed, loses that field and keeps its key and entry |
| NameMaps.LoadUnterminatedRecord | install-type1.py:164-185 | in a file of records whose last record has no line feed, that record's entry is stored under its PFB name, shortened by one character when it is the last field; a five-field record needs a PFB name of two or more characters |
| NameMaps.LoadUnterminatedShortKey | install-type1.py:164-185 | a five-field last record with a one-character PFB name and no line feed leaves the file's map as if the record were absent |
| NameMaps.LoadRecords | install-type1.py:164-185 | loading a file written from records maps each record's fifth field to its (first, second) fields, unless a later record reuses that key |
| NameMaps.Merged | install-type1.py:289-290 | reference definition of the merge: the files' dictionaries combined in order, a later file's entry replacing an earlier one |
| NameMaps.MergeNameMaps | install-type1.py:289-290 | the loop reading each map file and calling `update` builds exactly `Merged` of the files |
| NameMaps.MergedKeys | install-type1.py:289-290 | the merged key set is the union of the key sets of the files |
| NameMaps.MergedLastWins | install-type1.py:289-290 | a key takes its value from the last file that defines it; keys no later file defines keep their earlier value |
| NameMaps.MergedWellFormed | install-type1.py:289-290 | every key and name in the merged map is a whitespace-free field |
| DvipsMaps.Recode8a | install-type1.py:195 | the substitution keeps the identifier's length |
| DvipsMaps.Recode8aAt | install-type1.py:195 | a character changes exactly when it is the `a` of an `8a`, and it then becomes `r` |
| DvipsMaps.Recode8aLeavesNo8a | install-type1.py:195 | no `8a` remains after the substitution |
| DvipsMaps.Recode8aUnchanged | install-type1.py:195 | an identifier is emitted unchanged if and only if it contains no `8a` |
| DvipsMaps.Recode8aIdempotent | install-type1.py:195 | applying the substitution twice is the same as applying it once |
| DvipsMaps.MapLine | install-type1.py:194-195 | the line `'%s \t\t %s %s <8r.enc <%s.pfb\n'` for one entry; its properties are stated by the lemmas below |
| DvipsMaps.MapLineSplits | install-type1.py:193-195 | a line's fields are: the substituted identifier, the full name, the two halves of the directive, `<8r.enc`, and `<b.pfb` with the unsubstituted identifier `b` |
| DvipsMaps.MapLineKeepsPlainIdentifier | install-type1.py:194-195 | a line whose identifier has no `8a` starts with the identifier unchanged |
| DvipsMaps.MapLineTerminated | install-type1.py:194 | each emitted line ends with its one and only line feed |
| DvipsMaps.DvipsMapString | install-type1.py:188-197 | the text is one line per map key, each key exactly once, in the order the dictionary was iterated; for a map of whitespace-free fields, `readlines` on the text gives exactly as many lines as entries, and every entry's line is among them |
| DvipsMaps.DvipsMapLines | install-type1.py:188-197 | read back with `readlines`, the fragment has exactly as many lines as the map has entries, and line i splits into the fields of entry i, and every entry's line is among them |
| Families.FamilyCode | install-type1.py:309 | `berry[0:3]` is a prefix of the Berry name, of length 3, or of the whole name when it is shorter |
| Families.BaseName | install-type1.py:306 | `os.path.basename`: the path after its last `/` |
| Families.BaseNameShape | install-type1.py:306 | the base name is a slash-free end of the path, preceded in it by a `/` when it is not the whole path |
| Families.StripExtension | install-type1.py:306 | `os.path.splitext(name)[0]` of Python 2.7 |
| Families.StripExtensionShape | install-type1.py:306 | the result is a start of the name; when it is shorter, the name continues with a `.` and no later `.`, and the result is not dots alone |
| Families.ShortName | install-type1.py:306 | the base name with its extension removed, the key a path is looked up under |
| Families.ShortNameLeadingDots | install-type1.py:306 | a name whose stem is dots alone, such as `.pfb`, is looked up whole |
| Families.ShortNameOfPath | install-type1.py:306 | the base name of `dir/stem.ext` is `stem` |
| Families.ShortNameWithoutExtension | install-type1.py:306 | a path whose last component has no dot is looked up under that component |
| Families.GroupFamilies | install-type1.py:304-313 | fails exactly when some path's base name is not in the map, naming the first such path; otherwise the keys are the paths' families and each group lists its family's paths in discovery order |
| Families.Families | install-type1.py:304-313 | reference definition of the group keys: the family codes of the discovered paths |
| Families.Members | install-type1.py:304-313 | reference definition of a group: the discovered paths of that family, in discovery order |
| Families.MembersExact | install-type1.py:309-313 | a path is in a group exactly when it was discovered and its family is the group's key |
| Families.FamiliesExact | install-type1.py:309-311 | a family is a key exactly when some discovered path belongs to it |
| Families.GroupSizesAddUp | install-type1.py:304-313 | summed over any list of distinct keys that covers the families, the group sizes equal the number of discovered paths |
| Destinations.PathJoin | install-type1.py:153-154 | POSIX `os.path.join` of two components |
| Destinations.PathJoinShape | install-type1.py:153-154 | the join ends with the second operand; an absolute second operand is the result; otherwise the first operand comes first, followed by a `/` unless it is empty or already ends with one |
| Destinations.Destination | install-type1.py:264-270 | the directory the files of one extension are moved to |
| Destinations.DestinationOf | install-type1.py:264-270 | `fd` goes to `<texmf>/tex/latex/psnfss/` whatever the family; any other extension goes to `<texmf>/fonts/<subdir>/<font_name_dir>`, where the subdir of `pfb` is `type1` |
| Destinations.DestinationsDistinct | install-type1.py:264-270 | the five extensions have five different destinations |
| Destinations.Matches | install-type1.py:272 | `glob('*.ext')` selects a name |
| Destinations.GlobSelects | install-type1.py:272 | `*.ext` selects `stem.ext` exactly when the stem is not empty and does not start with a dot |
| Destinations.GlobSelectsOnly | install-type1.py:272 | every name `*.ext` selects is `stem.ext` for such a stem |
| Destinations.ExtensionsExclusive | install-type1.py:264-272 | `glob` selects a file for at most one of the five extensions |
| Destinations.MoveMatching | install-type1.py:272-273 | the inner loop moves exactly the files `glob` selects for one extension, in listing order |
| Destinations.PlanRelocation | install-type1.py:264-273 | the moves are the extensions' moves in the order vf, afm, tfm, fd, pfb |
| Destinations.Moves | install-type1.py:272-273 | reference definition of one extension's moves: the selected files of the listing, in listing order, each to the extension's destination |
| Destinations.Plan | install-type1.py:264-273 | reference definition of the relocation: the moves of each extension in turn |
| Destinations.MovesExact | install-type1.py:272-273 | a file is moved for an extension exactly when it is listed and `glob` selects it |
| Destinations.PlanExact | install-type1.py:264-273 | a file is moved to `d` exactly when it is listed, matches an extension, and `d` is that extension's destination |
| Destinations.PlanSingleDestination | install-type1.py:264-273 | for the five extensions, or any selection of them, no file is moved to two different destinations |

## Left out

- External programs are not modelled: `kpsewhich` (`tex_find_file`), `find`, `latex`, `pltotf`, `vptovf`, `chmod` and `mkdir -p`. Their behaviour is not visible. The map files' contents are parameters of `MergeNameMaps`, and the discovered paths are parameters of `GroupFamilies`.
- Filesystem effects are not modelled: temporary directories, `chdir`, `shutil.copy2`, `move_to_dir` (copy, then unlink), and the two files `write_psfonts_map` writes. `PlanRelocation` returns the list of moves instead of making them. Because each file matches at most one extension (`ExtensionsExclusive`), the directory listing taken once gives the same set of moves as globbing again before each extension. The order is the same only if `os.listdir` keeps the remaining names in their order after files are removed, which the model assumes.
- The order of `glob` results and of Python 2 dictionary iteration is unspecified. `PlanRelocation` takes the listing order as a parameter. `DvipsMapString` returns, as a ghost value, the key order it used.
- Command-line parsing with `getopt`, the help text, and the default map list `['adobe.map']` are not modelled; they are library plumbing.
- `os.path.abspath`, the regular-expression stripping that derives `font_name_dir`, and the `.pfb`→`.afm` companion rename are not modelled. They depend on the working directory and on regex metacharacters in paths. `font_name_dir` is an opaque input to `Destination`.
- Destinations.Destination: the result is the joined path string. The source builds `font_dir` and `psnfs_dir` from the texmf directory as given (lines 153-154) and makes only `texmf_dir` absolute afterwards (line 160). `convert_one_family` moves the files after changing into its temporary directory (line 233), so a relative texmf directory, including the default `texmf`, resolves inside that temporary directory, and the moved files are deleted with it (line 275, unless `--debug`). The model does not capture that resolution.
- The per-family conversion loop over `font_sets` and the `latex`/`pltotf`/`vptovf` steps are not modelled; they only run external programs.
- The `KeyError` the source raises for a missing base name is modelled as `Failure` carrying that name. Nothing else about the exception is modelled.
