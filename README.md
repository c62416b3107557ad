# Eclipse preferences merge — a Dafny model

`setup.py` installs a bundled set of Eclipse workbench preferences into a
workspace. Its core is a small ordered-properties store for `.prefs` files
plus a merge:

- `is_comment` tests whether a line, once stripped, starts with `#` or `;`.
- `load_prefs` reads a file line by line into a list of entries and a
  dictionary. A comment line is kept whole in the list. Any other line that
  holds the separator is split at its first occurrence. The raw text before
  the separator goes into the list. The stripped key is bound to the rest of
  the line, less its trailing line feeds. A line without the separator is
  dropped.
- `save_prefs` writes each entry back in order: a comment as is, a key as
  `key SEP value`, and then a line feed after every entry.
- `overwrite_prefs` merges another store into a target in place. Values
  come from the other store. Keys the target lacks are appended to its
  entries.
- The script body compares the two stores' common keys, asks before
  overwriting values that differ, merges and saves.

The model is split in four modules plus one for a finding:

- `Text` holds the Python 2 string operations the code relies on: `strip`,
  `rstrip("\n")`, `find` and `lower`.
- `Prefs` holds the comment test, loading (a specification function `Parse`
  and the line loop `LoadLines`), saving (`Render` and the loop
  `Store.Save`), and the `Store` class that holds a load's result.
- `Merge` holds `overwrite_prefs` as a method that updates a `Store` in
  place, its key loop, and the conflict check.
- `Driver` holds the script body from loading to saving, as written and as
  intended.
- `Verbatim` holds the comment-line finding.

Python exceptions are modelled as an `Err` result: `IndexError`, `KeyError`
and `TypeError`. A file that cannot be opened (`IOError`, mapped to
`None` by `load_prefs`) is modelled as a `None` input. A file that can be
opened is modelled as the sequence of its lines, each with its own line
feed. The text a save leaves in the file is `Concat` of the strings it
writes.

Points where the code's own comments and its behaviour part, or where the
code leaves something open:

- The comment at setup.py:28 says a comment line is added "as is", and
  setup.py:58 writes it back unchanged. But setup.py:65 writes a line feed
  after every entry, so a comment line read with its line feed is saved
  with two (see Findings). The model follows the code.
- setup.py:73 visits the other store's keys with `iteritems()`, in Python 2
  dictionary order, which Python does not specify. The model leaves the
  order in which new keys are appended unspecified.
- setup.py:17 indexes the stripped line without a guard, so a blank line
  raises `IndexError` from `is_comment`. The model does the same.

## Model

| member | source | states |
|---|---|---|
| Prefs.IsCommentSpec | setup.py:16-17 | the comment test raises IndexError exactly when the stripped string is empty (the string is all whitespace); otherwise it holds exactly when the stripped string starts with `#` or `;`, i.e. when the first visible character is one of them |
| Prefs.PrefixMarked | setup.py:29-37 | a prefix of a line holding a visible character has the same first visible character, so it looks like a comment exactly when the line does |
| Prefs.ClassifySpec | setup.py:25-37 | one line of the load loop: blank raises IndexError; a `#`/`;` line is a comment; any other line is a property exactly when the separator occurs, with the raw key being the text before the first occurrence and the value the text after it less trailing line feeds; otherwise the line is dropped |
| Prefs.TokenUnmarked | setup.py:29-37 | the raw key of a property line never looks like a comment |
| Prefs.LoadCommentLine | setup.py:29-30 | a comment line is appended verbatim to the entries and leaves the values alone |
| Prefs.LoadPropertyLine | setup.py:33-37 | a non-comment line splits at the first separator; its raw key is appended and its stripped key is bound to the rest less trailing line feeds, even when the key repeats |
| Prefs.LoadDroppedLine | setup.py:25-37 | a non-comment line without the separator changes nothing |
| Prefs.ParseErrorPersists | setup.py:25-37 | once a line raises, loading more lines gives the same error |
| Prefs.LoadFails | setup.py:25-37 | loading raises, with IndexError, exactly when some line is blank |
| Prefs.LoadKeyed | setup.py:25-37 | after loading, the key set of the values is exactly the set of stripped non-comment entries |
| Prefs.LoadLastValueWins | setup.py:34-37 | for a repeated key, the value from its last line is the one kept |
| Prefs.LoadLines | setup.py:19-43 | the line loop of `load_prefs` computes `Parse`, error included |
| Prefs.LoadPrefs | setup.py:19-43 | a file that cannot be opened gives no store; a blank line raises IndexError; otherwise a fresh store holding the loaded entries and values and the separator, whose values match its entries |
| Prefs.EmitShape | setup.py:54-65 | a blank entry raises IndexError; a comment entry is written as itself and then a line feed; a key entry with a value is written as `key SEP value` and then a line feed; a key entry without one raises KeyError |
| Prefs.EmitWrites | setup.py:54-65 | an entry that saves makes two writes, the second a line feed |
| Prefs.SaveShape | setup.py:54-65 | a save that does not raise writes two strings per entry, in entry order, each entry's own writes, the second of them a line feed |
| Prefs.RenderErrorPersists | setup.py:54-65 | once an entry raises, saving more entries gives the same error |
| Prefs.SaveFails | setup.py:54-62 | for entries whose stripped keys all have values, saving never raises KeyError and raises IndexError exactly when some entry is blank |
| Prefs.Store.Save | setup.py:45-65 | the write loop of `save_prefs` produces `Render` of the store, error included |
| Prefs.LoadPlain | setup.py:19-43 | a file of plain `key=value` lines with distinct stripped keys loads to one raw-key entry per line, and each stripped key holds its line's value |
| Prefs.SavePlain | setup.py:45-65 | saving the entries kept from the first n plain lines writes those lines back |
| Prefs.RoundTrip | setup.py:19-65 | for a file of plain `key=value` lines with distinct stripped keys, loading and then saving reproduces the file text exactly |
| Merge.OverwritePrefs | setup.py:69-77 | an absent target gives the other store back; an absent other store raises TypeError and changes nothing; a blank key in the other store raises IndexError (exactly then), after merging the keys visited before it, none of them blank; otherwise the target itself is returned, updated to a merge of the other store's values into it that keeps the store's values matched to its entries |
| Merge.MergeLoop | setup.py:73-76 | the key loop: stops with IndexError exactly when some key is blank, after a partial merge of non-blank keys; otherwise merges every key |
| Merge.MergeSubsumed | setup.py:73-77 | merging values the target already holds, such as an equal copy of it, changes neither its entries nor its values |
| Merge.MergeCount | setup.py:73-75 | the merge appends one entry per key the target lacks that does not look like a comment |
| Merge.MergeValues | setup.py:76 | after the merge every key of the other store holds its value from there, and every other key keeps its old value |
| Merge.MergeKeyed | setup.py:73-76 | merging one loaded store into another keeps the values matched to the stripped non-comment entries |
| Merge.NoDuplicatesCard | setup.py:73-75 | a sequence without repeated elements has as many distinct elements as positions (used for the appended keys) |
| Merge.FindConflicts | setup.py:102-121 | no workspace store gives no conflicts; an absent new store raises TypeError; otherwise the conflicts are exactly the common keys whose two values differ |
| Merge.ConflictsAreChanges | setup.py:105-121 | a key is a conflict exactly when it is an existing key whose value the merge changes |
| Merge.ConflictsOfCopy | setup.py:105-121 | a store has no conflicts with an equal copy of itself |
| Merge.ProceedsSpec | setup.py:123-127 | the script goes on to merge exactly when there are no conflicts or the answer is `y` or `Y` |
| Text.FindSpec | setup.py:26 | `find` gives the first position of the separator, and -1 only when it does not occur |
| Text.TrimNewlinesSpec | setup.py:36 | `rstrip("\n")` keeps a prefix, removes only line feeds, and leaves no line feed at the end |
| Text.StripFirst | setup.py:17 | `strip()` is empty exactly for an all-whitespace string, and otherwise starts at its first visible character |
| Text.StripIdempotent | setup.py:36 | a stripped key strips to itself |
| Text.LowerIsY | setup.py:127 | only `y` and `Y` lower-case to `y` |
| Driver.RunAsWritten | setup.py:97-131 | the script as written: with no workspace file and a shipped file that loads, the run ends in TypeError |
| Driver.Run | setup.py:97-131 | the script as intended: load errors propagate; a missing workspace file installs the shipped preferences as loaded; a conflict not accepted aborts; a blank shipped key raises IndexError; otherwise the saved writes are the rendering of some merge of the shipped values into the workspace store, with its values matched to its entries |
| Verbatim.CommentGainsBlankLine | setup.py:29-65 | a comment line ending in its line feed loads as itself and saves as itself plus a second line feed; the saved text, that line followed by a bare line feed, raises IndexError when loaded |
| Verbatim.LoadWellFormed | setup.py:19-43 | a file of comment lines and plain property lines with distinct stripped keys loads to one entry per line, a comment as itself and a key line as its raw key with its value |
| Verbatim.SaveKept | setup.py:45-65 | with comments written verbatim, saving the entries kept from the first n lines writes those lines back |
| Verbatim.RoundTripVerbatim | setup.py:19-65 | with comments written verbatim, loading and saving a file of comment lines and plain property lines with distinct stripped keys reproduces the file text exactly |

## Left out

- Opening, reading and writing files is not modelled. A file that cannot be
  opened is a `None` input, and a readable file is its sequence of lines.
  The `"rU"` newline translation is not modelled: lines are taken as given.
- A save that raises part way leaves a truncated file behind. The model
  returns only the error, not the partial text.
- The command line, the workspace directory check, the path constants and
  every `print` (usage, conflict report, final instructions) are left out.
  The answer typed at the prompt is a parameter of the driver.
- Python dictionary iteration order is unspecified. The merge loop and the
  conflict loop pick their next key nondeterministically, so the order of
  appended keys is stated as "each new key exactly once", not sequenced.
- Prefs.RoundTrip: stated only for plain lines with distinct stripped
  keys. Each line must hold the separator after a visible, non-comment
  first character, and end with exactly one line feed. Distinct keys are
  enough but not needed: a repeated key writes its last value at every
  occurrence, so such a file comes back only when each of its lines for
  that key carries that value; that case is not stated. A comment line
  gains a blank line (see Findings), so no comment line round-trips.
- Verbatim.RoundTripVerbatim: the corrected save writes a comment exactly
  as read. A last comment line without a line feed therefore runs into
  whatever is written after it, such as a key a merge appends; storing
  comments without their line feed and writing one after every entry would
  avoid that, and is not modelled.
- Merge.OverwritePrefs: the keys visited before a blank key raises are
  stated only as some subset of the other store, since the order is
  unspecified.
- Driver.RunAsWritten: states only the TypeError path; every other path
  is the same as in `Driver.Run`.
- Whitespace is the ASCII whitespace of Python 2 byte strings; Unicode
  whitespace and locale-dependent `lower()` are not modelled.
- The Python 2/3 `input`/`raw_input` shim and `bad_exit` are left out.

## Findings

| source | as written | input that shows it | evidently intended | confidence | as-written member | corrected member |
|---|---|---|---|---|---|---|
| setup.py:129-131 | the store returned by `overwrite_prefs` is dropped, and the workspace's store, `None` when its file is missing, is saved | a workspace with no `org.eclipse.ui.workbench.prefs` and a shipped file that loads: `save_prefs` subscripts `None` and raises TypeError | save the returned store, so a missing workspace file gets the shipped preferences | not executed | Driver.RunAsWritten | Driver.Run |
| setup.py:29-65 | a comment is stored with its own line feed and saved with one more | the file `# note\n` saves as `# note\n\n`; loading that again meets the blank line `\n` and raises IndexError | write a comment exactly as it was read, so load then save reproduces the file (a last comment line without a line feed then needs one added before anything written after it) | not executed | Verbatim.CommentGainsBlankLine | Verbatim.RoundTripVerbatim |
