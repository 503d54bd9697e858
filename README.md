# golang-edit-prompt, modelled in Dafny

`editz` is a visudo-like editing prompt for Go programs. It does two things:

- It works out which text editor to open from the `EDITOR` environment variable. The value is split on
  single spaces. Each piece is trimmed of white space and blank pieces are dropped. The first word is the
  command and the rest are its parameters. When no word is left, the editor is `vi`.
- `Edit(filePath, validateFunc)` copies a file to a temporary location and opens the editor on the copy.
  It then reads the copy back and compares it with the original:
  - identical bytes are returned as unchanged, without validation;
  - different bytes go to `validateFunc`, and only if they pass are they written over the original,
    which keeps its mode.

  Any failure along the way (the file cannot be read, the editor fails, validation fails, the write
  fails) is recovered and reported as an error with no contents. The temporary copy is removed on
  every path.

Files:

- `wrappers.dfy`: `Option` and `Result`.
- `gostrings.dfy`: the parts of Go's `strings` package the lookup uses.
  - `strings.Split(s, " ")` is modelled as `SplitOnSpace`.
  - `strings.TrimSpace` is modelled as `TrimSpace`, over `unicode.IsSpace`.
- `filestore.dfy`: a `FileStore` class, the slice of the file system `Edit` touches. It holds the
  contents and mode of each path, plus the paths the operating system refuses to read or to write.
  - `Stat` gives the mode.
  - `ReadFile` reads a whole file.
  - `WriteFile` models `ioutil.WriteFile`. An existing file keeps its mode, because the `perm` argument
    only applies to files it creates.
  - `CreateTemp` and `Remove` are the two halves of the scoped temporary file.
- `editz.dfy`:
  - the editor lookup: the `GetDefaultEditor` loop, specified by the function `EditorFor`;
  - the edit sequence: the `Edit` method, specified by `EditOutcome`, `FilesAfter` and `ValidatorInputs`.
- `scenarios.dfy`: the four editing sessions of the repository's tests, replayed on a concrete store, with
  their outcomes proved.

The environment, the editor and the validator are parameters:

- `GetDefaultEditor(env)` receives the value of `EDITOR`.
- `Edit` receives the editor as a function from the copy's contents to `Result<Bytes, Error>`.
- `Edit` receives the validator as a function from contents to `Option<Error>`.
- `Edit` receives the fresh name of the temporary copy as `tmpPath`.

Go's panic and `recover` become a `Failure` result. `errorz.Unwrap` hands back the original error, so a
`Failure` carries exactly the error the editor, the validator or the file system produced.

`EDITOR` is split on the space character only (`editz/editz.go:44`). A tab inside a piece survives the
split, and the trimming removes it only at the piece's edge. `SplitOnSpace` splits on `' '` alone, and
`IsToken` allows inner tabs.

## Model

| member | source | states |
|---|---|---|
| `GoStrings.SplitOnSpace` | editz/editz.go:44 | `strings.Split(s, " ")` always returns at least one piece |
| `GoStrings.SplitOnSpaceJoin` | editz/editz.go:44 | no piece of the split contains a space, and joining the pieces with single spaces gives back `s` |
| `GoStrings.SplitWithoutSpace` | editz/editz.go:44 | a string without spaces splits into itself alone |
| `GoStrings.SplitAround` | editz/editz.go:44 | splitting `a + " " + b` gives the pieces of `a` followed by the pieces of `b` |
| `GoStrings.SplitJoin` | editz/editz.go:44 | round trip: pieces without spaces, joined with single spaces, split back into the same pieces |
| `GoStrings.TrimLeftFuncSuffix` | editz/editz.go:48 | trimming the left end leaves a suffix that follows a prefix made only of trimmed characters, and does not itself start with one |
| `GoStrings.TrimRightFuncPrefix` | editz/editz.go:48 | trimming the right end leaves a prefix that precedes a suffix made only of trimmed characters, and does not itself end with one |
| `GoStrings.TrimPieces` | editz/editz.go:48 | trimming both ends leaves a stretch of `s` with only trimmed characters around it; it is empty exactly when all of `s` is trimmable |
| `GoStrings.TrimFuncInfix` | editz/editz.go:48 | `strings.TrimFunc`: the result is a stretch of `s` obtained by cutting only characters satisfying `f` from both ends; it is empty exactly when every character satisfies `f`, and otherwise starts and ends with one that does not |
| `GoStrings.TrimSpaceTrims` | editz/editz.go:48 | `strings.TrimSpace`: empty exactly when the piece is all white space; otherwise neither its first nor its last character is white space |
| `GoStrings.TrimSpaceAddsNothing` | editz/editz.go:44-48 | trimming introduces no character, so a piece of the split still holds no space after trimming |
| `GoStrings.TrimSpaceOfTrimmed` | editz/editz.go:48 | trimming is the identity on a string with no white space at either end |
| `Editz.TokensAreWords` | editz/editz.go:44-52 | the words kept from an `EDITOR` value are non-empty, space-free and trimmed, and there are none exactly when the value is blank |
| `Editz.KeepNonBlankTokens` | editz/editz.go:47-52 | pieces without spaces leave only words behind after trimming and dropping blanks |
| `Editz.KeepNonBlankEmpty` | editz/editz.go:47-54 | no piece survives the loop exactly when every piece is blank |
| `Editz.KeepNonBlankConcat` | editz/editz.go:47-52 | the loop keeps pieces one at a time: the survivors of a concatenation are the survivors of each part |
| `Editz.TokensAround` | editz/editz.go:44-52 | the words of `a + " " + b` are those of `a` followed by those of `b`, so runs of spaces separate like one space |
| `Editz.TokensOfToken` | editz/editz.go:44-52 | a single word is read back as itself |
| `Editz.KeepNonBlankOfTokens` | editz/editz.go:47-52 | words that need no trimming all survive, in order |
| `Editz.TokensOfJoin` | editz/editz.go:44-52 | round trip: any list of words written with single spaces is read back unchanged |
| `Editz.TokensPad` | editz/editz.go:47-52 | blank text on either side of a space adds no word |
| `Editz.TokensOfThreePadded` | editz/editz.go:44-58 | three words separated by two spaces and padded with blanks are read back as those three words |
| `Editz.EditorForWords` | editz/editz.go:43-65 | the command and every parameter are words, in order, taken from the value (`[command] + params` is the word list) when it has a word; a blank value gives the fallback `vi` with no parameters (`EDITOR=vi` gives the same editor, from its own word) |
| `Editz.FallbackIsToken` | editz/editz.go:62-65 | the fallback `vi` is a single word with no parameters |
| `Editz.AllTokensSplit` | editz/editz.go:54-58 | the first of the kept words (the command) is a word, and so are the rest (the parameters) |
| `Editz.GetDefaultEditor` | editz/editz.go:42-66 | the loop that trims and appends each piece returns exactly `EditorFor(env)`; the loop invariant keeps the kept pieces equal to the survivors of the pieces seen so far |
| `Editz.EditorForToken` | editz/editz.go:54-58 | a value holding a single word opens that word with no parameters |
| `Editz.EditorForOneWord` | editz/editz_test.go:150-154 | `EDITOR=edit` opens `edit` with no parameters |
| `Editz.EditorForPadded` | editz/editz_test.go:156-160 | `EDITOR="   edit  -p  -a   "` opens `edit` with parameters `-p`, `-a` |
| `Editz.EditorForUnset` | editz/editz_test.go:162-166 | an unset (empty) `EDITOR` opens `vi` |
| `Editz.EditOutcome` | editz/editz.go:79-109 | a missing file gives `NotExist` and an unreadable one `PermissionDenied`, before any editing; on success the contents are what the editor made of the original, `isChanged` holds exactly when they differ from it, and a change is reported only once `validate` accepted it and the file was writable; an editor error and a validation error are reported as they are; contents the editor leaves alone give `(orig, false)`, and different, accepted contents give `(new, true)` on a writable file and `PermissionDenied` on a read-only one |
| `Editz.FilesAfter` | editz/editz.go:101-105 | afterwards the same paths exist, every other file is untouched, and the edited file holds the new contents only after an accepted change |
| `Editz.ValidatorInputs` | editz/editz.go:96-101 | the validator sees at most one input: the editor's output, and only when it differs from the original |
| `Editz.UnchangedSkipsValidation` | editz/editz.go:96-99 | contents the editor leaves alone are reported unchanged whatever the validator would say, and the validator is not called |
| `Editz.ChangedIffAccepted` | editz/editz.go:96-105 | the original is replaced if and only if it was readable and writable, the editor produced different bytes, and the validator accepted them |
| `Editz.FileHoldsReportedContents` | editz/editz.go:97-105 | after a successful edit, changed or not, the file holds exactly the reported contents |
| `Editz.ReopenAfterChange` | editz/editz.go:96-99 | reopening the file after an accepted change and leaving it alone reports the new contents as unchanged |
| `Editz.RunEditor` | editz/editz.go:93 | the editor rewrites the copy with its output, or fails, leaving every file as it was and reporting its error |
| `Editz.Edit` | editz/editz.go:79-109 | the result is `EditOutcome` of the files before the call and the files afterwards are `FilesAfter`; modes and permissions are unchanged; the temporary copy is gone on every path; the validator's inputs are `ValidatorInputs` |
| `Editz.EditCopy` | editz/editz.go:92-106 | the callback run on the copy: edit, read back, compare, validate, and write back with the file's own mode; its outcome is `CopyOutcome` and only the edited file (and the copy) differ afterwards |
| `Editz.DropCopy` | editz/editz.go:92 | removing the temporary copy leaves the files as if it had never been made |
| `FileSystem.FileStore.Stat` | editz/editz.go:88-89 | `os.Stat`: the file's mode when the path exists, `NotExist` otherwise |
| `FileSystem.FileStore.ReadFile` | editz/editz.go:90 | `filez.MustReadFile`: the whole contents, `NotExist` for a missing path, `PermissionDenied` for an unreadable one |
| `FileSystem.FileStore.WriteFile` | editz/editz.go:102 | `ioutil.WriteFile`: replaces the contents of that one path, keeps an existing file's mode, and fails with `PermissionDenied` on a read-only file without changing anything |
| `FileSystem.FileStore.CreateTemp` | editz/editz.go:92 | the temporary copy is a new path holding the original contents, mode 0600 |
| `FileSystem.FileStore.Remove` | editz/editz.go:92 | the temporary copy is deleted and nothing else changes |
| `EditScenarios.UnchangedSession` | editz/editz_test.go:30-53 | an editor that changes nothing: `("Hello!", false)`, the file still holds `Hello!`, and the validator is not called |
| `EditScenarios.ChangedSession` | editz/editz_test.go:55-79 | an editor that writes `Hello world!` with an accepting validator: `("Hello world!", true)`, and the file now holds `Hello world!` |
| `EditScenarios.InvalidSession` | editz/editz_test.go:81-105 | the same with a rejecting validator: the error `invalid`, and the file keeps `Hello!` |
| `EditScenarios.FailedEditorSession` | editz/editz_test.go:107-131 | a failing editor: the error `edit error`, no validation, and the file keeps `Hello!` |

## Left out

- `ShellEditor.Edit` (editz/editz.go:26-35) starts an external process with the terminal attached. This
  is I/O. The editor is a function parameter of `Edit`, applied to the copy's contents.
- `os.Getenv("EDITOR")` and the mutable global `DefaultEditor` (editz/editz.go:37-43) are not modelled.
  The value of `EDITOR` is the parameter `env` of `GetDefaultEditor`, and the editor is a parameter of
  `Edit`. An unset variable and an empty one both read as `""`, as they do in Go.
- Strings are sequences of Unicode scalar values. Invalid UTF-8 in a Go string is not modelled. Go's
  `TrimSpace` would treat such bytes as non-space.
- `filez.WithMustWriteTempFile`, `filez.MustReadFile` and `ioutil.WriteFile` belong to other packages and
  are not part of this model. Their behaviour is assumed, not derived:
  - the temporary copy is created under a fresh name (`Edit` requires that `tmpPath` is not an existing
    path), holds the original bytes, and is removed on every exit;
  - failing to create the temporary file and generating its name are not modelled;
  - a write replaces the whole file in one step or fails without a change, with a read-only file as its
    one failure. A partially written original after a failed commit (for example a full disk) is not
    modelled.
- Editz.Edit: the editor is assumed to touch only the temporary copy. An editor that changes other files,
  or changes the original behind `Edit`'s back, is not modelled.
- Permission bits are an opaque 32-bit mode. Whether a file may be read or written is given by the
  store's `unreadable` and `readOnly` sets, not derived from the mode.
- `errorz` wrapping of panics is not modelled. A panic with a value that is not an `error` is wrapped
  by `errorz` and then unwrapped again, so the model reports the error itself. Stack traces and the
  `SkipPackage` option are not modelled.
- FileSystem.FileStore.Stat: its only failure is a missing path. `os.Stat` failing on a path that exists, for
  example under a directory that cannot be searched, is not modelled.
- Editz.Edit: removing the temporary copy always succeeds. If the removal failed after a commit, the
  recover at editz/editz.go:80-86 would report an error with no contents even though line 102 had
  already overwritten the original; that outcome is not modelled.
