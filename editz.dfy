/**
 * A visudo-like text editing prompt: which editor to open, and the
 * copy / edit / compare / validate / commit sequence around it.
 */
module Editz {
  import opened Wrappers
  import opened GoStrings
  import opened FileSystem

  /** `ShellEditor`: the command that opens a text editor and the parameters put before the file path. */
  datatype ShellEditor = ShellEditor(command: string, params: seq<string>)

  /** The editor opened when `EDITOR` names none. */
  const FallbackEditor := ShellEditor("vi", [])

  // ---------------------------------------------------------------------------
  // Default editor resolution
  // ---------------------------------------------------------------------------

  /** A word the editor lookup keeps: non-empty, free of the space separator, trimmed. */
  predicate IsToken(t: string) {
    t != [] && ' ' !in t && !IsSpace(t[0]) && !IsSpace(t[|t| - 1])
  }

  /** Every element of `ts` is a word. */
  predicate AllTokens(ts: seq<string>) {
    forall k :: 0 <= k < |ts| ==> IsToken(ts[k])
  }

  /** The pieces of `parts` that are not blank, trimmed, in their original order. */
  function KeepNonBlank(parts: seq<string>): seq<string>
  {
    if parts == [] then []
    else
      var t := TrimSpace(parts[|parts| - 1]);
      if t == [] then KeepNonBlank(parts[..|parts| - 1])
      else KeepNonBlank(parts[..|parts| - 1]) + [t]
  }

  /** The words of an `EDITOR` value: its space-separated pieces, trimmed, with the blank ones dropped. */
  function Tokens(env: string): seq<string>
  {
    KeepNonBlank(SplitOnSpace(env))
  }

  /** The words of an `EDITOR` value are words, and there are none exactly when the value is blank. */
  lemma TokensAreWords(env: string)
    ensures AllTokens(Tokens(env))
    ensures Tokens(env) == [] <==> Blank(env)
  {
    var parts := SplitOnSpace(env);
    SplitOnSpaceJoin(env);
    AllJoin(parts, IsSpace);
    KeepNonBlankTokens(parts);
    KeepNonBlankEmpty(parts);
  }

  /** Appending a word to words gives words. */
  lemma AllTokensAppend(ts: seq<string>, t: string)
    requires AllTokens(ts) && IsToken(t)
    ensures AllTokens(ts + [t])
  {
    var r := ts + [t];
    forall k | 0 <= k < |r| ensures IsToken(r[k]) {
      if k < |ts| { assert r[k] == ts[k]; }
    }
  }

  /** Pieces free of separators leave only words behind. */
  lemma {:induction false} KeepNonBlankTokens(parts: seq<string>)
    requires SpaceFree(parts)
    ensures AllTokens(KeepNonBlank(parts))
    decreases |parts|
  {
    if parts != [] {
      var init, last := parts[..|parts| - 1], parts[|parts| - 1];
      assert SpaceFree(init) by {
        assert forall i :: 0 <= i < |init| ==> init[i] == parts[i];
      }
      KeepNonBlankTokens(init);
      var t := TrimSpace(last);
      TrimSpaceTrims(last);
      if t != [] {
        TrimSpaceAddsNothing(last, ' ');
        AllTokensAppend(KeepNonBlank(init), t);
      }
    }
  }

  /** Nothing survives exactly when every piece is blank. */
  lemma {:induction false} KeepNonBlankEmpty(parts: seq<string>)
    ensures KeepNonBlank(parts) == [] <==> AllPieces(parts, IsSpace)
    decreases |parts|
  {
    if parts != [] {
      var init, last := parts[..|parts| - 1], parts[|parts| - 1];
      assert parts == init + [last];
      KeepNonBlankEmpty(init);
      TrimSpaceTrims(last);
    }
  }

  /** One more piece: it is appended, trimmed, unless it is blank. */
  lemma KeepNonBlankStep(parts: seq<string>, i: nat)
    requires i < |parts|
    ensures var t := TrimSpace(parts[i]);
      KeepNonBlank(parts[..i + 1]) == if t == [] then KeepNonBlank(parts[..i]) else KeepNonBlank(parts[..i]) + [t]
  {
    assert parts[..i + 1][..i] == parts[..i];
  }

  /** Dropping blanks works piece by piece: the survivors of a concatenation are the survivors of each part. */
  lemma {:induction false} KeepNonBlankConcat(a: seq<string>, b: seq<string>)
    ensures KeepNonBlank(a + b) == KeepNonBlank(a) + KeepNonBlank(b)
    decreases |b|
  {
    if b == [] {
      assert a + b == a;
    } else {
      var init := b[..|b| - 1];
      assert (a + b)[..|a + b| - 1] == a + init;
      assert (a + b)[|a + b| - 1] == b[|b| - 1];
      KeepNonBlankConcat(a, init);
    }
  }

  /**
   * Words are found on each side of a space independently: the words of
   * `a + " " + b` are those of `a` followed by those of `b`, so runs of spaces
   * separate words no differently from a single one.
   */
  lemma TokensAround(a: string, b: string)
    ensures Tokens(a + " " + b) == Tokens(a) + Tokens(b)
  {
    SplitAround(a, b);
    KeepNonBlankConcat(SplitOnSpace(a), SplitOnSpace(b));
  }

  /** A single word is read back as itself. */
  lemma TokensOfToken(t: string)
    requires IsToken(t)
    ensures Tokens(t) == [t]
  {
    SplitWithoutSpace(t);
    TrimSpaceOfTrimmed(t);
    assert [t][..0] == [];
    assert KeepNonBlank([t]) == KeepNonBlank([]) + [t];
  }

  /** Words that need no trimming are kept as they are. */
  lemma {:induction false} KeepNonBlankOfTokens(ts: seq<string>)
    requires AllTokens(ts)
    ensures KeepNonBlank(ts) == ts
    decreases |ts|
  {
    if ts != [] {
      var init, last := ts[..|ts| - 1], ts[|ts| - 1];
      assert AllTokens(init) by {
        assert forall k :: 0 <= k < |init| ==> init[k] == ts[k];
      }
      KeepNonBlankOfTokens(init);
      assert TrimSpace(last) == last by {
        assert IsToken(last);
        TrimSpaceOfTrimmed(last);
      }
      assert KeepNonBlank(ts) == KeepNonBlank(init) + [last];
      assert init + [last] == ts;
    }
  }

  /** Round trip: any list of words, written out separated by single spaces, is read back unchanged. */
  lemma TokensOfJoin(ts: seq<string>)
    requires AllTokens(ts)
    ensures Tokens(JoinOnSpace(ts)) == ts
  {
    if ts != [] {
      SplitJoin(ts);
      KeepNonBlankOfTokens(ts);
    }
  }

  /**
   * The editor an `EDITOR` value names: its first word is the command and the
   * remaining words, in order, are the parameters; `vi` when it holds no word.
   */
  function EditorFor(env: string): ShellEditor
  {
    var ts := Tokens(env);
    if ts == [] then FallbackEditor else ShellEditor(ts[0], ts[1..])
  }

  /**
   * What `EditorFor` promises: a blank value yields the fallback `vi` without
   * parameters; any other value takes its command and parameters, in order,
   * from its own words (so `EDITOR=vi` also yields `vi` without parameters).
   */
  lemma EditorForWords(env: string)
    ensures var e := EditorFor(env);
      && IsToken(e.command) && AllTokens(e.params)
      && (!Blank(env) ==> [e.command] + e.params == Tokens(env))
      && (Blank(env) ==> e == FallbackEditor)
  {
    var ts := Tokens(env);
    TokensAreWords(env);
    if ts == [] {
      FallbackIsToken();
    } else {
      AllTokensSplit(ts);
      assert [ts[0]] + ts[1..] == ts;
    }
  }

  /** The fallback command is itself a single word. */
  lemma FallbackIsToken()
    ensures IsToken(FallbackEditor.command) && FallbackEditor.params == []
  {
    var vi := FallbackEditor.command;
    assert vi[0] == 'v' && vi[1] == 'i' && |vi| == 2;
  }

  /** The first of some words is a word, and so are the rest. */
  lemma AllTokensSplit(ts: seq<string>)
    requires ts != [] && AllTokens(ts)
    ensures IsToken(ts[0]) && AllTokens(ts[1..])
  {
    assert forall k :: 0 <= k < |ts| - 1 ==> ts[1..][k] == ts[k + 1];
  }

  /**
   * `getDefaultEditor`, with the value of `EDITOR` as its input: it splits the
   * value on spaces, keeps the trimmed non-blank pieces one by one, and falls
   * back to `vi` when none is left.
   */
  method GetDefaultEditor(env: string) returns (e: ShellEditor)
    ensures e == EditorFor(env)
  {
    if env != "" {
      var parts := SplitOnSpace(env);
      var goodParts: seq<string> := [];
      for i := 0 to |parts|
        invariant goodParts == KeepNonBlank(parts[..i])
      {
        var part := TrimSpace(parts[i]);
        KeepNonBlankStep(parts, i);
        if part != "" {
          goodParts := goodParts + [part];
        }
      }
      assert parts[..|parts|] == parts;
      if |goodParts| > 0 {
        return ShellEditor(goodParts[0], goodParts[1..]);
      }
    } else {
      EditorForUnset();
    }
    return FallbackEditor;
  }

  /** `EDITOR=edit` opens `edit` without parameters. */
  lemma EditorForOneWord()
    ensures EditorFor("edit") == ShellEditor("edit", [])
  {
    var w := "edit";
    assert IsToken(w);
    EditorForToken(w);
  }

  /** A single word opens that word as the command, without parameters. */
  lemma EditorForToken(t: string)
    requires IsToken(t)
    ensures EditorFor(t) == ShellEditor(t, [])
  {
    TokensOfToken(t);
  }

  /** Blank text on either side of a space adds no word. */
  lemma TokensPad(pad: string, s: string)
    requires Blank(pad)
    ensures Tokens(pad + " " + s) == Tokens(s)
    ensures Tokens(s + " " + pad) == Tokens(s)
  {
    TokensAreWords(pad);
    TokensAround(pad, s);
    TokensAround(s, pad);
  }

  /**
   * Three words separated by two spaces each and padded with blank text on
   * both sides are read back as those three words.
   */
  lemma TokensOfThreePadded(pad: string, x: string, y: string, z: string)
    requires Blank(pad) && IsToken(x) && IsToken(y) && IsToken(z)
    ensures Tokens(pad + " " + x + "  " + y + "  " + z + " " + pad) == [x, y, z]
  {
    var yz := y + "  " + z;
    assert Tokens(yz) == [y, z] by {
      TokensOfToken(y);
      TokensOfToken(z);
      TokensPad("", z);
      TokensAround(y, "" + " " + z);
      DoubleSpace(y, z);
    }
    var xyz := x + "  " + yz;
    assert Tokens(xyz) == [x, y, z] by {
      TokensOfToken(x);
      TokensPad("", yz);
      TokensAround(x, "" + " " + yz);
      DoubleSpace(x, yz);
    }
    TokensPad(pad, xyz);
    TokensPad(pad, xyz + " " + pad);
    Regroup(pad, x, y, z);
  }

  /** Two spaces in a row are a space, an empty piece and a space. */
  lemma DoubleSpace(a: string, b: string)
    ensures a + " " + ("" + " " + b) == a + "  " + b
  {
    assert a + " " + (" " + b) == a + (" " + " ") + b;
  }

  /** Regrouping the padded three-word value. */
  lemma Regroup(pad: string, x: string, y: string, z: string)
    ensures pad + " " + ((x + "  " + (y + "  " + z)) + " " + pad) == pad + " " + x + "  " + y + "  " + z + " " + pad
  {
  }

  /** The padded value of the example, written as pieces. */
  lemma PaddedPieces()
    ensures "  " + " " + "edit" + "  " + "-p" + "  " + "-a" + " " + "  " == "   edit  -p  -a   "
  {
  }

  /** Surrounding and repeated spaces are ignored: `edit` with parameters `-p` and `-a`. */
  lemma EditorForPadded()
    ensures EditorFor("   edit  -p  -a   ") == ShellEditor("edit", ["-p", "-a"])
  {
    var pad, x, y, z := "  ", "edit", "-p", "-a";
    assert Blank(pad) && IsToken(x) && IsToken(y) && IsToken(z);
    TokensOfThreePadded(pad, x, y, z);
    PaddedPieces();
  }

  /** An unset (empty) `EDITOR` opens `vi`. */
  lemma EditorForUnset()
    ensures EditorFor("") == FallbackEditor
  {
  }

  // ---------------------------------------------------------------------------
  // Edit: copy, edit, compare, validate, commit
  // ---------------------------------------------------------------------------

  /** What `Edit` hands back on success: the contents after editing and whether the file changed. */
  datatype Edited = Edited(contents: Bytes, isChanged: bool)

  /**
   * The outcome `Edit` reports, as a function of the files before the call. The
   * file must exist and be readable; the editor works on a copy of its contents;
   * contents it leaves identical are reported unchanged without consulting
   * `validate`; different contents must pass `validate` and be written back.
   * Every failure on the way is reported as the error that caused it, with no
   * contents. The contract spells out what a caller can rely on.
   */
  function EditOutcome(files: map<string, Bytes>, unreadable: set<string>, readOnly: set<string>,
                       filePath: string, editor: Bytes -> Result<Bytes, Error>,
                       validate: Bytes -> Option<Error>): (r: Result<Edited, Error>)
    // a file that is missing or unreadable is reported before any editing
    ensures filePath !in files ==> r == Failure(NotExist(filePath))
    ensures filePath in files && filePath in unreadable ==> r == Failure(PermissionDenied(filePath))
    // on success the contents are what the editor produced from the original
    ensures r.Success? ==> (filePath in files && filePath !in unreadable
                            && editor(files[filePath]) == Success(r.value.contents))
    // the file counts as changed exactly when the bytes differ
    ensures r.Success? ==> (r.value.isChanged <==> r.value.contents != files[filePath])
    // a change is reported only once it was accepted and could be written
    ensures r.Success? && r.value.isChanged ==> validate(r.value.contents) == None && filePath !in readOnly
    // an editor failure and a validation failure surface unchanged
    ensures filePath in files && filePath !in unreadable && editor(files[filePath]).Failure?
            ==> r == Failure(editor(files[filePath]).error)
    ensures (filePath in files && filePath !in unreadable && editor(files[filePath]).Success?
             && editor(files[filePath]).value != files[filePath] && validate(editor(files[filePath]).value).Some?)
            ==> r == Failure(validate(editor(files[filePath]).value).value)
    // contents the editor leaves alone are reported unchanged
    ensures filePath in files && filePath !in unreadable && editor(files[filePath]) == Success(files[filePath])
            ==> r == Success(Edited(files[filePath], false))
    // different, accepted contents are committed when the file is writable, and refused otherwise
    ensures (filePath in files && filePath !in unreadable && editor(files[filePath]).Success?
             && editor(files[filePath]).value != files[filePath] && validate(editor(files[filePath]).value).None?)
            ==> r == if filePath in readOnly then Failure(PermissionDenied(filePath))
                     else Success(Edited(editor(files[filePath]).value, true))
  {
    if filePath !in files then Failure(NotExist(filePath))
    else if filePath in unreadable then Failure(PermissionDenied(filePath))
    else CopyOutcome(files[filePath], filePath, filePath !in readOnly, editor, validate)
  }

  /**
   * The outcome of the part of `Edit` that works on the temporary copy of
   * `origBuf`: edit, compare, validate, and write back to `filePath` when that
   * file is `writable`.
   */
  function CopyOutcome(origBuf: Bytes, filePath: string, writable: bool, editor: Bytes -> Result<Bytes, Error>,
                       validate: Bytes -> Option<Error>): Result<Edited, Error>
  {
    match editor(origBuf)
    case Failure(e) => Failure(e)
    case Success(newBuf) =>
      if newBuf == origBuf then Success(Edited(newBuf, false))
      else match validate(newBuf)
        case Some(e) => Failure(e)
        case None =>
          if writable then Success(Edited(newBuf, true))
          else Failure(PermissionDenied(filePath))
  }

  /**
   * The files after `Edit` reported `r`: an accepted change replaces the file at
   * `filePath`; nothing else, and nothing at all otherwise, is different.
   */
  function FilesAfter(files: map<string, Bytes>, filePath: string, r: Result<Edited, Error>): (after: map<string, Bytes>)
    requires r.Success? && r.value.isChanged ==> filePath in files
    ensures after.Keys == files.Keys
    ensures forall p :: p in files && p != filePath ==> after[p] == files[p]
    ensures filePath in files ==>
      after[filePath] == if r.Success? && r.value.isChanged then r.value.contents else files[filePath]
  {
    if r.Success? && r.value.isChanged then files[filePath := r.value.contents] else files
  }

  /** The contents `Edit` hands to `validate`: the edited contents, only when they differ from the original. */
  function ValidatorInputs(files: map<string, Bytes>, unreadable: set<string>, filePath: string,
                           editor: Bytes -> Result<Bytes, Error>): (inputs: seq<Bytes>)
    ensures |inputs| <= 1
    ensures inputs != [] ==> filePath in files && filePath !in unreadable
                             && editor(files[filePath]) == Success(inputs[0]) && inputs[0] != files[filePath]
  {
    if filePath in files && filePath !in unreadable
       && editor(files[filePath]).Success? && editor(files[filePath]).value != files[filePath]
    then [editor(files[filePath]).value]
    else []
  }

  /**
   * Contents the editor leaves as they were are reported unchanged whatever
   * `validate` would have said: the validator plays no part in the outcome.
   */
  lemma UnchangedSkipsValidation(files: map<string, Bytes>, unreadable: set<string>, readOnly: set<string>,
                                 filePath: string, editor: Bytes -> Result<Bytes, Error>,
                                 validate: Bytes -> Option<Error>, other: Bytes -> Option<Error>)
    requires filePath in files && filePath !in unreadable
    requires editor(files[filePath]) == Success(files[filePath])
    ensures EditOutcome(files, unreadable, readOnly, filePath, editor, validate)
         == EditOutcome(files, unreadable, readOnly, filePath, editor, other)
         == Success(Edited(files[filePath], false))
    ensures ValidatorInputs(files, unreadable, filePath, editor) == []
  {
  }

  /**
   * The original is replaced exactly when the file could be read, the editor
   * produced different contents, `validate` accepted them and the file could be
   * written.
   */
  lemma ChangedIffAccepted(files: map<string, Bytes>, unreadable: set<string>, readOnly: set<string>,
                           filePath: string, editor: Bytes -> Result<Bytes, Error>, validate: Bytes -> Option<Error>)
    ensures var r := EditOutcome(files, unreadable, readOnly, filePath, editor, validate);
      (r.Success? && r.value.isChanged)
      <==> (&& filePath in files && filePath !in unreadable && filePath !in readOnly
            && editor(files[filePath]).Success?
            && editor(files[filePath]).value != files[filePath]
            && validate(editor(files[filePath]).value).None?)
  {
  }

  /** After a successful `Edit` the file holds exactly the contents that were reported. */
  lemma FileHoldsReportedContents(files: map<string, Bytes>, unreadable: set<string>, readOnly: set<string>,
                                  filePath: string, editor: Bytes -> Result<Bytes, Error>,
                                  validate: Bytes -> Option<Error>)
    ensures var r := EditOutcome(files, unreadable, readOnly, filePath, editor, validate);
      r.Success? ==> FilesAfter(files, filePath, r)[filePath] == r.value.contents
  {
  }

  /**
   * Opening the file again after an accepted change, and closing the editor
   * without touching it, reports the new contents as unchanged.
   */
  lemma ReopenAfterChange(files: map<string, Bytes>, unreadable: set<string>, readOnly: set<string>,
                          filePath: string, editor: Bytes -> Result<Bytes, Error>,
                          validate: Bytes -> Option<Error>, keep: Bytes -> Result<Bytes, Error>)
    requires forall b :: keep(b) == Success(b)
    ensures var r := EditOutcome(files, unreadable, readOnly, filePath, editor, validate);
      r.Success? && r.value.isChanged ==>
        EditOutcome(FilesAfter(files, filePath, r), unreadable, readOnly, filePath, keep, validate)
        == Success(Edited(r.value.contents, false))
  {
  }

  /**
   * `DefaultEditor.Edit(path)`: the editor rewrites the file at `path` with what it
   * makes of its contents, or fails and leaves it as it was.
   */
  method RunEditor(fs: FileStore, path: string, editor: Bytes -> Result<Bytes, Error>) returns (err: Option<Error>)
    requires fs.Valid()
    requires path in fs.files && path !in fs.unreadable && path !in fs.readOnly
    modifies fs
    ensures fs.Valid()
    ensures err == if editor(old(fs.files)[path]).Failure? then Some(editor(old(fs.files)[path]).error) else None
    ensures fs.files == if err.None? then old(fs.files)[path := editor(old(fs.files)[path]).value] else old(fs.files)
    ensures fs.modes == old(fs.modes)
    ensures fs.unreadable == old(fs.unreadable) && fs.readOnly == old(fs.readOnly)
  {
    var edited := editor(fs.files[path]);
    if edited.Failure? {
      return Some(edited.error);
    }
    err := fs.WriteFile(path, edited.value, TempFileMode);
  }

  /**
   * `Edit(filePath, validateFunc)`, with the editor and the validator passed in
   * and `tmpPath` the fresh name the temporary copy receives. The result and the
   * new files are `EditOutcome` and `FilesAfter` of the files before the call:
   * the original changes only by an accepted edit, no other file changes, the
   * temporary copy is gone afterwards, and no mode or permission changes.
   * `validated` records what was handed to `validate`, which is `ValidatorInputs`.
   */
  method Edit(fs: FileStore, filePath: string, tmpPath: string,
              editor: Bytes -> Result<Bytes, Error>, validate: Bytes -> Option<Error>)
    returns (r: Result<Edited, Error>, ghost validated: seq<Bytes>)
    requires fs.Valid()
    requires tmpPath != filePath && tmpPath !in fs.files
    modifies fs
    ensures fs.Valid()
    ensures r == EditOutcome(old(fs.files), old(fs.unreadable), old(fs.readOnly), filePath, editor, validate)
    ensures fs.files == FilesAfter(old(fs.files), filePath, r)
    ensures fs.modes == old(fs.modes)
    ensures fs.unreadable == old(fs.unreadable) && fs.readOnly == old(fs.readOnly)
    ensures validated == ValidatorInputs(old(fs.files), old(fs.unreadable), filePath, editor)
  {
    validated := [];
    var stat := fs.Stat(filePath);
    if stat.Failure? {
      return Failure(stat.error), validated;
    }
    var orig := fs.ReadFile(filePath);
    if orig.Failure? {
      return Failure(orig.error), validated;
    }
    var origBuf := orig.value;

    fs.CreateTemp(tmpPath, origBuf);
    ghost var withCopy := fs.files;
    r, validated := EditCopy(fs, filePath, tmpPath, origBuf, stat.value, editor, validate);
    fs.Remove(tmpPath);
    DropCopy(old(fs.files), withCopy, tmpPath, filePath, r);
  }

  /** Removing the temporary copy again leaves the files as if it had never been made. */
  lemma DropCopy(files: map<string, Bytes>, withCopy: map<string, Bytes>, tmpPath: string, filePath: string,
                 r: Result<Edited, Error>)
    requires tmpPath !in files && filePath in files && tmpPath != filePath
    requires withCopy.Keys == files.Keys + {tmpPath}
    requires forall p :: p in files ==> withCopy[p] == files[p]
    ensures FilesAfter(withCopy, filePath, r) - {tmpPath} == FilesAfter(files, filePath, r)
  {
  }

  /**
   * The callback `Edit` runs while the temporary copy at `tmpPath` exists: the
   * editor rewrites the copy, the copy is read back and compared with
   * `origBuf`, and a different, valid result is written over `filePath` with
   * the mode `mode` that file already has. The copy itself is left for the
   * caller to remove.
   */
  method EditCopy(fs: FileStore, filePath: string, tmpPath: string, origBuf: Bytes, mode: FileMode,
                  editor: Bytes -> Result<Bytes, Error>, validate: Bytes -> Option<Error>)
    returns (r: Result<Edited, Error>, ghost validated: seq<Bytes>)
    requires fs.Valid()
    requires filePath in fs.files && filePath != tmpPath
    requires tmpPath in fs.files && fs.files[tmpPath] == origBuf
    requires tmpPath !in fs.unreadable && tmpPath !in fs.readOnly
    modifies fs
    ensures fs.Valid()
    ensures r == CopyOutcome(origBuf, filePath, filePath !in old(fs.readOnly), editor, validate)
    ensures tmpPath in fs.files && fs.files - {tmpPath} == FilesAfter(old(fs.files), filePath, r) - {tmpPath}
    ensures fs.modes == old(fs.modes)
    ensures fs.unreadable == old(fs.unreadable) && fs.readOnly == old(fs.readOnly)
    ensures validated == if editor(origBuf).Success? && editor(origBuf).value != origBuf then [editor(origBuf).value] else []
  {
    validated := [];
    var editErr := RunEditor(fs, tmpPath, editor);
    if editErr.Some? {
      return Failure(editErr.value), validated;
    }
    var back := fs.ReadFile(tmpPath);
    assert back.Success?;
    var newBuf := back.value;
    if newBuf == origBuf {
      return Success(Edited(newBuf, false)), validated;
    }
    validated := [newBuf];
    var invalid := validate(newBuf);
    if invalid.Some? {
      return Failure(invalid.value), validated;
    }
    var writeErr := fs.WriteFile(filePath, newBuf, mode);
    if writeErr.Some? {
      return Failure(writeErr.value), validated;
    }
    r := Success(Edited(newBuf, true));
  }
}
