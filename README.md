# Snapshot engine of Click_Image, modelled in Dafny

The application keeps a working directory (`CURRENT_DIR`). It can copy that
directory into a snapshot slot (`SNAPSHOT_DIR/<id>`) and record the capture
in a JSON history file (`HISTORY_FILE`). It can copy a slot back over the
working directory, show the history newest first, and render an escaped
line diff between a slot and the working directory.

This project models that engine. The Flask routes around it are not modelled.

- `wrappers.dfy`, module `Wrappers`: the `Option` and `Result` types used for
  an unset environment variable and for `json.load` failures.
- `text.dfy`, module `Text`: the Python string behaviour the engine relies on.
  This covers the ordering `<` of `str`, which sorts timestamps, and
  `readlines()` on a text file. It also has `sep.join`. The ordering is proved
  a strict total order. `readlines` is proved to lose nothing, and to cut the
  text only after newlines.
- `html.dfy`, module `Html`: the rendering expression of the diff page.
  - Each line goes through `replace('&', '&amp;')`, then `replace('<', '&lt;')`,
    then `replace('>', '&gt;')`. The lines are then joined with `<br>`.
  - The chain is proved equal to a one-pass, character-by-character escaping.
    This holds because `&` is replaced first.
  - The escaped line has no raw `<` or `>`, and every `&` in it starts an
    entity.
  - Unescaping gives back the original line. The whole page splits back into
    exactly the diff lines.
- `ledger.dfy`, module `Ledger`: the history records and the three states of
  the history file (missing, saved, unparseable). It also holds the in-place
  sort of the index page. The sort is proved to order entries newest first,
  to be a permutation of its input, and to be stable.
- `snapshots.dfy`, module `Snapshots`: class `Store`, with the working tree
  `current`, the slots `snapshots` and the history file `ledger` as fields.
  - A directory is a `map` from relative path to file text.
  - `load_history` is a function of the history file's state.
    `copy_folder`, `get_files`, `save_history`, `create_snapshot`,
    `restore_snapshot`, `diff_snapshot` and the index listing are methods.
    Their post-states are stated exactly.
  - Lemmas show that the diff depends only on the snapshot's own paths, and
    that a file deleted from the working tree is compared as an empty file.
  - Two client methods prove two properties. Restoring a just-created
    snapshot gives back the working tree. Diffing it right away gives no
    lines, provided identical files produce no diff.

Behaviour of the code that the model keeps:

- `restore_snapshot` (app.py:76-78) copies the slot back only when the slot
  directory exists. It never reads the history. An unknown id changes nothing.
- `copy_folder` (app.py:31-34) removes the destination when it exists, then
  copies the source into it.
- `create_snapshot` (app.py:56-70) copies the tree and lists the slot before
  it loads the history. When the history file cannot be parsed, the new slot
  stays written and no entry is appended.
- `create_snapshot` does not check the generated id. A repeated id overwrites
  its slot and adds a second entry with the same id. `CreateSnapshot` states
  exactly this.
- `get_files` (app.py:37-43) returns the paths in walk order.
- `diff_snapshot` HTML-escapes every diff line itself (app.py:101).
- `diff_snapshot` for an id with no slot walks no files and renders an empty
  diff (app.py:87, app.py:101).

The generated id, the clock and the `USER` environment variable are method
parameters. `difflib.unified_diff` is a function parameter of `DiffSnapshot`.

## Model

| member | source | states |
|---|---|---|
| `Text.StrLessTotal` | app.py:49 | two different timestamps are always ordered one way or the other under Python's string `<` |
| `Text.StrLessTransitive` | app.py:49 | the string ordering used as the sort key is transitive |
| `Text.NotLessTransitive` | app.py:49 | "not older than" is transitive, so a newest-first order is consistent along the whole list |
| `Text.ReadLines` | app.py:91-98 | `readlines` yields at most one line per character, and at least one line for a non-empty file |
| `Text.ReadLinesConcat` | app.py:91-98 | concatenating the lines `readlines` returns gives back the file's whole text |
| `Text.ReadLinesShape` | app.py:91-98 | every line is non-empty, has no newline before its end, and every line but the last ends with a newline |
| `Text.Join` | app.py:101 | `sep.join(parts)` is as long as the parts together plus one separator between each pair of neighbours; `Html.SplitBrJoin` shows that splitting at `<br>` undoes it |
| `Html.Replace` | app.py:101 | after `replace(c, rep)`, `c` is gone when `rep` does not contain it, and other characters are present exactly when they were before |
| `Html.Escape` | app.py:101 | the three chained replacements leave no raw `<` or `>` in a diff line; `Html.EscapeIsCharwise` and `Html.UnescapeEscape` characterise it fully |
| `Html.EscapeIsCharwise` | app.py:101 | the chained replacements, `&` first, equal escaping each character on its own, so no entity is escaped twice |
| `Html.EscapeIsMarkupSafe` | app.py:101 | an escaped diff line has no raw `<` or `>`, and each `&` in it starts `&amp;`, `&lt;` or `&gt;` |
| `Html.UnescapeEscape` | app.py:101 | unescaping an escaped line gives back the original line |
| `Html.EscapeAll` | app.py:101 | every diff line is escaped, one output per line, in order |
| `Html.SplitBrJoin` | app.py:101 | `'<br>'.join` of pieces without `<` is undone by splitting at `<br>` |
| `Html.BrIsOnlyTag` | app.py:101 | in a `<br>`-join of pieces that hold no `<`, every `<` begins one of the `<br>` separators |
| `Html.DiffHtml` | app.py:101 | the only markup in the rendered diff is `<br>`: every `<` in it begins a `<br>` |
| `Html.DiffHtmlRoundTrip` | app.py:101 | splitting the rendered diff at `<br>` and unescaping each piece gives back exactly the diff lines |
| `Ledger.SortNewestFirst` | app.py:48-49 | the in-place sort leaves the history ordered by timestamp, newest first, as a permutation of the loaded list, with entries of equal timestamp in their original order |
| `Snapshots.EnumerationSize` | app.py:37-43 | a listing of every file path, each exactly once, is exactly as long as the tree has files |
| `Snapshots.PathJoin` | app.py:57 | `os.path.join(dir, name)` ends with `name`, and begins with `dir` when `name` is relative |
| `Snapshots.UserName` | app.py:63 | the entry's user is the `USER` variable's value when it is set, and `unknown` otherwise |
| `Snapshots.FileDiff` | app.py:88-99 | a snapshot file that is missing from the working tree, or empty there, is diffed against no lines; a file whose current text equals its snapshot text gives no lines, provided `unified_diff` gives none for identical inputs |
| `Snapshots.DiffText` | app.py:87-100 | no visited file gives no lines, and one visited file gives exactly its own diff; `DiffIgnoresCurrentOnlyFiles`, `DiffOfIdenticalTrees` and the loop of `DiffSnapshot` characterise it for longer walks |
| `Snapshots.MissingFileDiffsAsEmpty` | app.py:90-99 | a snapshot file missing from the working tree is compared as if the current file were empty |
| `Snapshots.DiffIgnoresCurrentOnlyFiles` | app.py:87-100 | two working trees that agree on the snapshot's paths give the same diff, so files only in the working tree never appear |
| `Snapshots.DiffOfIdenticalTrees` | app.py:87-100 | comparing a tree with itself gives no diff lines, provided `unified_diff` gives none for identical inputs |
| `Snapshots.Store.constructor` | app.py:10-16 | the engine starts from a given working tree, set of slots and history file |
| `Snapshots.Store.TreeAt` | app.py:77 | a directory exists exactly when it is the working tree or the slot of an id that has one, and then holds that tree |
| `Snapshots.Store.SlotPath` | app.py:57 | the slot directory of an id that is not an absolute path lies under the snapshot directory |
| `Snapshots.Store.LoadHistory` | app.py:19-23 | a missing history file reads as the empty history, a saved one as its entries, and an unparseable one raises |
| `Snapshots.Store.SaveHistory` | app.py:26-28 | the whole file is rewritten, and loading it next returns exactly the saved history |
| `Snapshots.Store.CopyFolder` | app.py:31-34 | afterwards the destination equals the source's old tree, so nothing of the old destination survives; the source and every other directory are unchanged |
| `Snapshots.Store.GetFiles` | app.py:37-43 | the result lists every file path of the folder exactly once and nothing else; it is empty when the folder does not exist |
| `Snapshots.Store.CreateSnapshot` | app.py:56-70 | the working tree is unchanged and the slot of the id becomes a copy of it. On success the history gains exactly one entry at its end, with earlier entries unchanged. That entry records the id, time, user (`unknown` when unset), message and slot path, and its file list enumerates the copied tree. If the history file is unparseable, the slot is still written and the history is untouched |
| `Snapshots.Store.RestoreSnapshot` | app.py:75-78 | with a slot for the id, the working tree becomes exactly that slot's tree. Without one, the working tree is unchanged. Slots and history are untouched in both cases |
| `Snapshots.Store.DiffSnapshot` | app.py:85-101 | only the slot's paths are visited, each once. Each path's diff pairs the snapshot's lines with the current file's lines, or with no lines if that file is missing. An unknown id gives no diff lines. The page is the escaped lines joined by `<br>` |
| `Snapshots.Store.ListNewestFirst` | app.py:47-49 | the listing is the stored history as a permutation, newest first, with ties in ledger order; it fails when the history file is unparseable |
| `Snapshots.Store.CreateThenRestore` | app.py:56-78 | creating a snapshot and immediately restoring it leaves the working tree as it was at creation |
| `Snapshots.Store.CreateThenDiff` | app.py:56-101 | a diff taken right after creating a snapshot is empty, provided `unified_diff` gives nothing for identical files |

## Left out

- The Flask layer: routing, `request.form`, `render_template`, `redirect`/`url_for` and the debug server (app.py:6-8, 46, 50, 53-55, 71, 74, 79, 82, 102-106). These are the web shell around the engine.
- `uuid4().hex[:7]`, `datetime.now().isoformat(...)` and `os.getenv('USER')`: nondeterministic inputs, taken as the parameters `id`, `now` and `userEnv`.
- The JSON encoding of the history (`ensure_ascii`, `indent`): the file is a stored sequence of records. Every way `json.load` can fail is one `Unparseable` state. The same state also stands for a file that parses to something other than a list, such as `{}` or `null`: then `append` (app.py:69) and `sort` (app.py:49) raise, just as a failed parse does. A stored entry without a `timestamp` key, which would make the sort raise, cannot occur because entries are typed records.
- `difflib.unified_diff`: library code not shown here. It is a function parameter, and the model stops at the pair of line lists it receives.
- `readlines` newline translation (`\r\n` and `\r` read as `\n`) and UTF-8 decoding failures: file contents are character strings split at `\n`.
- Filesystem details: `os.walk` order (any enumeration order is allowed), empty directories, symbolic links, permissions, and the `os.makedirs` at import (the working tree and the slot root always exist).
- Files versus directories: a `Tree` maps paths to file texts and cannot tell a file from a directory. It may hold keys no real directory can hold together, such as `p` and `p/y`. If a slot holds a file `p` and the working tree holds a directory `p` (with `p/y` in it), `os.path.exists` at app.py:90 is true and `open` at app.py:97 raises `IsADirectoryError`. The model instead compares `p` as missing from the working tree.
- Snapshot ids with path meaning, such as `.`, `..` or ids containing `/`: a slot is keyed by the id string alone, so `os.path.join` traversal out of `SNAPSHOT_DIR` is not modelled.
- `Snapshots.Store.CopyFolder`: requires the source to exist and to differ from the destination. Both callers guarantee this. The `FileNotFoundError` that `copytree` would raise after `rmtree` has already run is not modelled.
- Crash windows between `rmtree` and `copytree`, and races between concurrent requests on the history's read-modify-write: these are durability and concurrency concerns, and every operation here runs to completion alone.
