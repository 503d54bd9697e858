/**
 * The four editing sessions the repository's tests walk through, on a store
 * holding one file with the text "Hello!": an editor that changes nothing, one
 * that writes "Hello world!" and a validator that accepts it, the same with a
 * validator that rejects it, and an editor that fails.
 */
module EditScenarios {
  import opened Wrappers
  import opened FileSystem
  import opened Editz

  /** "Hello!" */
  const Hello: Bytes := [0x48, 0x65, 0x6C, 0x6C, 0x6F, 0x21]

  /** "Hello world!" */
  const HelloWorld: Bytes := [0x48, 0x65, 0x6C, 0x6C, 0x6F, 0x20, 0x77, 0x6F, 0x72, 0x6C, 0x64, 0x21]

  const FilePath := "edit.txt"
  const TmpPath := "golang-edit-prompt"

  /** A store with only the file being edited, readable and writable, mode 0644. */
  method NewStore() returns (fs: FileStore)
    ensures fresh(fs) && fs.Valid()
    ensures fs.files == map[FilePath := Hello] && fs.unreadable == {} && fs.readOnly == {}
  {
    fs := new FileStore(map[FilePath := Hello], map[FilePath := 0x1A4], {}, {});
  }

  /** The editor exits without saving: unchanged, and the validator is never called. */
  method UnchangedSession() returns (r: Result<Edited, Error>, after: Bytes, ghost validated: seq<Bytes>)
    ensures r == Success(Edited(Hello, false)) && after == Hello && validated == []
  {
    var fs := NewStore();
    r, validated := Edit(fs, FilePath, TmpPath, b => Success(b), b => None);
    after := fs.files[FilePath];
  }

  /** The editor saves "Hello world!" and it is accepted: the file now holds it. */
  method ChangedSession() returns (r: Result<Edited, Error>, after: Bytes, ghost validated: seq<Bytes>)
    ensures r == Success(Edited(HelloWorld, true)) && after == HelloWorld && validated == [HelloWorld]
  {
    var fs := NewStore();
    r, validated := Edit(fs, FilePath, TmpPath, b => Success(HelloWorld), b => None);
    after := fs.files[FilePath];
  }

  /** The validator rejects "Hello world!": its error is reported and the file keeps "Hello!". */
  method InvalidSession() returns (r: Result<Edited, Error>, after: Bytes, ghost validated: seq<Bytes>)
    ensures r == Failure(Message("invalid")) && after == Hello && validated == [HelloWorld]
  {
    var fs := NewStore();
    r, validated := Edit(fs, FilePath, TmpPath, b => Success(HelloWorld), b => Some(Message("invalid")));
    after := fs.files[FilePath];
  }

  /** The editor fails: its error is reported, nothing is validated and the file keeps "Hello!". */
  method FailedEditorSession() returns (r: Result<Edited, Error>, after: Bytes, ghost validated: seq<Bytes>)
    ensures r == Failure(Message("edit error")) && after == Hello && validated == []
  {
    var fs := NewStore();
    r, validated := Edit(fs, FilePath, TmpPath, b => Failure(Message("edit error")), b => None);
    after := fs.files[FilePath];
  }
}
