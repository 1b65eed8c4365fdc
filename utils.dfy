/** File helpers of the release tool (src/utils.rs): the file system seen as
    a map from path to contents, `open_file` (create if missing, never
    truncate), reading and overwriting a file, and `find_between`. */
module Utils {
  import opened Common
  import opened Text

  /** The file system of a run: the contents of every existing file, the
      paths at which a missing file can be created (their directory exists),
      and the paths whose writes fail. */
  datatype Fs = Fs(files: map<string, string>, creatable: set<string>, failingWrites: set<string>)

  /** A result, the file system after the operation, and its events. */
  datatype Step<+T> = Step(result: Result<T>, fs: Fs, events: seq<Event>)

  const README_MD: string := "README.md"

  /** Every event is an access to a file: the operation runs no program
      and asks nothing of the user. */
  predicate FileEvents(events: seq<Event>) {
    forall e :: e in events ==> e.Create? || e.Read? || e.Write?
  }

  /** `File::open`: read-only; fails on a missing file and never creates one. */
  function OpenExisting(fs: Fs, path: string): Result<string> {
    if path in fs.files then Ok(path) else Err(NotFound(path))
  }

  /** `open_file`: opens for reading and writing, creating an empty file when
      it is missing and its directory exists, and never truncating. */
  function OpenFile(fs: Fs, path: string): (r: Step<string>)
    ensures r.result.Ok? <==> path in fs.files || path in fs.creatable
    ensures r.result.Ok? ==> r.result.value == path && path in r.fs.files
    ensures path in fs.files ==> r.fs == fs && r.events == []
    ensures path !in fs.files && r.result.Ok? ==>
      r.fs.files == fs.files[path := ""] && r.events == [Create(path)]
    ensures r.result.Err? ==> r.fs == fs && r.events == []
    ensures r.fs.creatable == fs.creatable && r.fs.failingWrites == fs.failingWrites
  {
    if path in fs.files then Step(Ok(path), fs, [])
    else if path in fs.creatable then Step(Ok(path), fs.(files := fs.files[path := ""]), [Create(path)])
    else Step(Err(NotFound(path)), fs, [])
  }

  /** The effect of `write_file`: the file's contents become exactly
      `content`, or the write fails and the file is left alone. */
  function FsWrite(fs: Fs, path: string, content: string): (r: Step<()>)
    requires path in fs.files
    ensures r.result.Ok? <==> path !in fs.failingWrites
    ensures r.result.Ok? ==> r.fs.files == fs.files[path := content] && r.events == [Write(path)]
    ensures r.result.Err? ==> r.fs == fs && r.events == []
    ensures r.fs.creatable == fs.creatable && r.fs.failingWrites == fs.failingWrites
  {
    if path in fs.failingWrites then Step(Err(WriteFailed(path)), fs, [])
    else Step(Ok(()), fs.(files := fs.files[path := content]), [Write(path)])
  }

  /** `find_between` panics unless `start` occurs in `content` and `end`
      occurs after the first `start`. */
  predicate FindBetweenDefined(content: string, start: string, end: string) {
    match Find(content, start)
    case None => false
    case Some(i) => Find(content[i + |start|..], end).Some?
  }

  /** `find_between`: the text after the first `start` up to the next `end`. */
  function FindBetween(content: string, start: string, end: string): (r: string)
    requires FindBetweenDefined(content, start, end)
    ensures exists i ::
      OccursAt(content, start + r + end, i) && NoneBefore(content, start, i) && NoneBefore(content[i + |start|..], end, |r|)
    ensures |end| > 0 ==> !Contains(r, end)
  {
    var i := Find(content, start).value;
    var rest := content[i + |start|..];
    var j := Find(rest, end).value;
    FindBetweenFacts(content, start, end, i, j);
    rest[..j]
  }

  lemma {:induction false} FindBetweenFacts(content: string, start: string, end: string, i: nat, j: nat)
    requires Find(content, start) == Some(i)
    requires Find(content[i + |start|..], end) == Some(j)
    ensures OccursAt(content, start + content[i + |start|..][..j] + end, i)
    ensures |end| > 0 ==> !Contains(content[i + |start|..][..j], end)
    ensures NoneBefore(content[i + |start|..], end, j)
  {
    var from := i + |start|;
    var rest := content[from..];
    var r := rest[..j];
    assert r == content[from..from + j];
    OccursInSuffix(content, end, from, j);
    EnclosedOccurs(content, start, r, end, i);
    if |end| > 0 {
      SplitOnFirst(rest, end, j);
    }
  }

  lemma OccursInSuffix(s: string, p: string, from: nat, j: nat)
    requires from <= |s| && OccursAt(s[from..], p, j)
    ensures OccursAt(s, p, from + j)
  {
    assert s[from..][j..j + |p|] == s[from + j..from + j + |p|];
  }

  lemma EnclosedOccurs(s: string, a: string, m: string, b: string, i: nat)
    requires OccursAt(s, a, i) && OccursAt(s, m, i + |a|) && OccursAt(s, b, i + |a| + |m|)
    ensures OccursAt(s, a + m + b, i)
  {
    var k := i + |a| + |m|;
    assert s[i..k + |b|] == s[i..i + |a|] + s[i + |a|..k] + s[k..k + |b|];
  }

  /** An open file handle: the file's contents and the position of the cursor. */
  class File {
    var contents: string
    var cursor: nat

    /** The handle `open_file` returns: cursor at the start. */
    constructor (contents: string)
      ensures this.contents == contents && cursor == 0
    {
      this.contents := contents;
      cursor := 0;
    }

    /** `seek(SeekFrom::Start(pos))`. */
    method Seek(pos: nat)
      modifies this
      ensures contents == old(contents) && cursor == pos
    {
      cursor := pos;
    }

    /** `set_len(n)`: cuts the file to `n` characters or pads it with NUL
        characters; the cursor stays where it was. */
    method SetLen(n: nat)
      modifies this
      ensures contents == Resized(old(contents), n) && cursor == old(cursor)
    {
      contents := Resized(contents, n);
    }

    /** `read_to_string`: everything from the cursor on; the cursor moves to the end. */
    method ReadToString() returns (s: string)
      modifies this
      ensures contents == old(contents)
      ensures old(cursor) <= |contents| ==> s == contents[old(cursor)..] && cursor == |contents|
      ensures old(cursor) > |contents| ==> s == [] && cursor == old(cursor)
    {
      if cursor <= |contents| {
        s := contents[cursor..];
        cursor := |contents|;
      } else {
        s := [];
      }
    }

    /** `write_all(data)`: overwrites from the cursor on, extending the file
        when the data runs past its end; the cursor moves past the data. */
    method WriteAll(data: string)
      modifies this
      ensures contents == Overwritten(old(contents), old(cursor), data)
      ensures cursor == old(cursor) + |data|
    {
      contents := Overwritten(contents, cursor, data);
      cursor := cursor + |data|;
    }
  }

  function Nuls(n: nat): (r: string)
    ensures |r| == n && forall k :: 0 <= k < n ==> r[k] == '\0'
  {
    seq(n, _ => '\0')
  }

  /** The contents after `set_len(n)`. */
  function Resized(contents: string, n: nat): (r: string)
    ensures |r| == n
    ensures forall k :: 0 <= k < n && k < |contents| ==> r[k] == contents[k]
    ensures forall k :: |contents| <= k < n ==> r[k] == '\0'
  {
    if n <= |contents| then contents[..n] else contents + Nuls(n - |contents|)
  }

  /** The contents after writing `data` at position `at`. */
  function Overwritten(contents: string, at: nat, data: string): (r: string)
    ensures |r| == if at + |data| <= |contents| then |contents| else at + |data|
    ensures r[at..at + |data|] == data
    ensures forall k :: 0 <= k < at && k < |contents| ==> r[k] == contents[k]
    ensures forall k :: at + |data| <= k < |contents| ==> r[k] == contents[k]
    ensures forall k :: |contents| <= k < at ==> r[k] == '\0'
  {
    var front := Resized(contents, at);
    var back := if at + |data| < |contents| then contents[at + |data|..] else [];
    assert (front + data + back)[at..at + |data|] == data;
    front + data + back
  }

  /** `read_file`: reads the rest of the file from the cursor. */
  method ReadFile(file: File) returns (content: string)
    modifies file
    ensures file.contents == old(file.contents)
    ensures old(file.cursor) <= |file.contents| ==> content == file.contents[old(file.cursor)..] && file.cursor == |file.contents|
    ensures old(file.cursor) > |file.contents| ==> content == [] && file.cursor == old(file.cursor)
  {
    content := file.ReadToString();
  }

  /** `write_file`: rewinds, truncates, then writes, so that the file holds
      exactly `content`, with no tail of its former contents left over. */
  method WriteFile(file: File, content: string)
    modifies file
    ensures file.contents == content
    ensures file.cursor == |content|
  {
    file.Seek(0);
    file.SetLen(0);
    file.WriteAll(content);
  }

  /** How the adapters rewrite a file through a handle: `open_file`,
      `read_file`, a new text computed from what was read, then
      `write_file`. The handle ends up holding what `FsWrite` leaves in the
      file system, so the file-system view of a write is the handle's. */
  method Rewrite(fs: Fs, path: string, edit: string -> string) returns (before: string, file: File)
    requires path in fs.files
    ensures fresh(file)
    ensures before == fs.files[path]
    ensures path !in fs.failingWrites ==> file.contents == FsWrite(fs, path, edit(before)).fs.files[path]
  {
    file := new File(fs.files[path]);
    before := ReadFile(file);
    WriteFile(file, edit(before));
  }
}
