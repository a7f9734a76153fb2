/** The FSDATA archive object: a growing array of files, written in id order and read back. */
module FsdataArchive {
  import opened Bytes
  import opened Reading
  import opened Fsdata
  import opened FsdataReading

  const FIRST_CAPACITY: nat := 8

  predicate EntryCountOk(n: int) {
    n > 0 && n % SECTOR == 0
  }

  class Archive {
    const entryCount: nat
    var files: array<File>
    var count: nat

    ghost predicate Valid()
      reads this, files
    {
      count <= files.Length && DistinctIds(files[..count]) && IdsBelow(files[..count], entryCount)
    }

    /** The files, in the order in which they were added. */
    function Contents(): seq<File>
      reads this, files
      requires count <= files.Length
    {
      files[..count]
    }

    constructor (entryCount: nat)
      ensures Valid() && Contents() == [] && this.entryCount == entryCount && fresh(files)
    {
      this.entryCount := entryCount;
      files, count := new File[0], 0;
    }

    /** The place of a file, found by a scan. */
    method Find(id: int) returns (r: Result<nat>)
      requires Valid()
      ensures match r
              case Ok(i) => i < count && Contents()[i].id == id
              case Err(e) => e == NotFound && forall i :: 0 <= i < count ==> Contents()[i].id != id
    {
      for i := 0 to count
        invariant forall j :: 0 <= j < i ==> files[j].id != id
      {
        if files[i].id == id {
          return Ok(i);
        }
      }
      return Err(NotFound);
    }

    /** Doubles the array when it is full. */
    method Grow()
      requires Valid()
      modifies this`files
      ensures Valid() && count < files.Length && Contents() == old(Contents())
      ensures files == old(files) || fresh(files)
    {
      if count >= files.Length {
        var capacity := if files.Length == 0 then FIRST_CAPACITY else files.Length * 2;
        var grown := new File[capacity](_ => File(0, []));
        for i := 0 to count
          invariant files == old(files) && count < grown.Length
          invariant grown[..i] == files[..i]
        {
          grown[i] := files[i];
        }
        files := grown;
      }
    }

    /** Adds a file at the end; refuses ids outside the table, and ids that are taken. */
    method Add(id: int, content: bytes) returns (r: Result<()>)
      requires Valid()
      modifies this`files, this`count, files
      ensures Valid() && (files == old(files) || fresh(files))
      ensures r == if 0 <= id < entryCount && (forall i :: 0 <= i < |old(Contents())| ==> old(Contents())[i].id != id)
                   then Ok(()) else Err(InvalidArg)
      ensures Contents() == if r.Ok? then old(Contents()) + [File(id, content)] else old(Contents())
    {
      if id < 0 || id >= entryCount {
        return Err(InvalidArg);
      }
      var found := Find(id);
      if found.Ok? {
        return Err(InvalidArg);
      }
      Grow();
      files[count] := File(id, content);
      count := count + 1;
      assert Contents() == old(Contents()) + [File(id, content)];
      return Ok(());
    }

    /** The image depends on the set of files only: it is that of their one ascending arrangement. */
    method Write() returns (buf: array<byte>, ghost fs: seq<File>)
      requires Valid()
      ensures Ascending(fs) && multiset(fs) == multiset(Contents()) && IdsBelow(fs, entryCount)
      ensures fresh(buf) && buf[..] == Image(entryCount, fs)
    {
      hide Image;
      var sorted := SortById(files[..count]);
      SameIds(files[..count], sorted, entryCount);
      buf := WriteFiles(entryCount, sorted);
      fs := sorted;
    }
  }

  lemma SameIds(s: seq<File>, t: seq<File>, n: nat)
    requires multiset(s) == multiset(t) && IdsBelow(s, n)
    ensures IdsBelow(t, n)
  {
    forall i | 0 <= i < |t|
      ensures t[i].id < n
    {
      assert t[i] in multiset(s);
      var j :| 0 <= j < |s| && s[j] == t[i];
    }
  }

  /** Two archives that hold the same files, added in whatever order, have the same image. */
  lemma OrderOfAddingIrrelevant(n: nat, a: seq<File>, b: seq<File>, fs: seq<File>, gs: seq<File>)
    requires multiset(a) == multiset(b)
    requires Ascending(fs) && multiset(fs) == multiset(a) && IdsBelow(fs, n)
    requires Ascending(gs) && multiset(gs) == multiset(b) && IdsBelow(gs, n)
    ensures Image(n, fs) == Image(n, gs)
  {
    AscendingUnique(fs, gs);
  }

  function ParseArchive(buf: bytes, n: int): Outcome<seq<File>> {
    if !EntryCountOk(n) || |buf| < HeaderSize(n) then Failed(InvalidArg) else Parse(buf, n, n)
  }

  lemma {:induction false} ParseFailsEarly(buf: bytes, n: nat, k: nat, m: nat)
    requires k <= m <= n && HeaderSize(n) <= |buf| && !Parse(buf, n, k).Done?
    ensures Parse(buf, n, m) == Parse(buf, n, k)
    decreases m - k
  {
    hide FetchAt;
    if k < m {
      ParseFailsEarly(buf, n, k + 1, m);
    }
  }

  lemma NextRow(buf: bytes, n: nat, k: nat)
    requires k < n && HeaderSize(n) <= |buf| && Parse(buf, n, k).Done?
    ensures var f, init := FetchAt(buf, n, k), Parse(buf, n, k).value;
      && (f.Refused? ==> Parse(buf, n, k + 1) == Failed(InvalidArg))
      && (f.Outside? ==> Parse(buf, n, k + 1) == Undefined)
      && (f.Skip? ==> Parse(buf, n, k + 1) == Done(init))
      && (f.Slice? ==> Parse(buf, n, k + 1) == Done(init + [File(k, buf[f.lo..f.hi])]))
  {
    hide FetchAt;
  }

  /** Reads a table: every file that is not skipped is copied from inside the buffer and added under its
      row's number. At the first row that reaches in front of the buffer the meaning is lost. */
  method Read(buf: bytes, n: int) returns (r: Outcome<Archive>)
    ensures match ParseArchive(buf, n)
            case Failed(e) => r == Failed(e)
            case Undefined => r == Undefined
            case Done(fs) => r.Done? && fresh(r.value) && fresh(r.value.files) && r.value.Valid() && r.value.Contents() == fs && r.value.entryCount == n
  {
    hide FetchAt, Parse;
    if !EntryCountOk(n) {
      return Failed(InvalidArg);
    }
    var f := new Archive(n);
    if |buf| < HeaderSize(n) {
      return Failed(InvalidArg);
    }
    assert Parse(buf, n, 0) == Done([]) by { ParseNothing(buf, n); }
    for i := 0 to n
      invariant fresh(f) && fresh(f.files) && f.Valid() && f.entryCount == n
      invariant Parse(buf, n, i) == Done(f.Contents())
    {
      NextRow(buf, n, i);
      ParsedIds(buf, n, i);
      var fetch := FetchAt(buf, n, i);
      if fetch.Refused? {
        ParseFailsEarly(buf, n, i + 1, n);
        return Failed(InvalidArg);
      }
      if fetch.Outside? {
        ParseFailsEarly(buf, n, i + 1, n);
        return Undefined;
      }
      if fetch.Slice? {
        var _ := f.Add(i, buf[fetch.lo..fetch.hi]);
      }
    }
    return Done(f);
  }

  /** Writes an archive, reads the image and writes what was read: the second image is that of the files
      that are kept, and the same as the first exactly when no empty file lies behind one that is not
      empty. */
  method Rewrite(f: Archive) returns (one: bytes, two: bytes, ghost fs: seq<File>)
    requires f.Valid() && EntryCountOk(f.entryCount) && Representable(f.entryCount, f.Contents())
    ensures Ascending(fs) && multiset(fs) == multiset(f.Contents()) && IdsBelow(fs, f.entryCount) && one == Image(f.entryCount, fs)
    ensures IdsBelow(Kept(fs), f.entryCount) && two == Image(f.entryCount, Kept(fs))
    ensures one == two <==> EmptyFirst(fs)
  {
    hide Image, Kept, Parse, Representable, EmptyFirst;
    var n := f.entryCount;
    var buf, again;
    buf, fs := f.Write();
    one := buf[..];
    RepresentableAnyOrder(n, f.Contents(), fs);
    RoundTrip(n, fs);
    KeptOrder(fs, n);
    WriteReadWrite(n, fs);
    var back := Read(one, n);
    ghost var gs;
    again, gs := back.value.Write();
    two := again[..];
    AscendingUnique(gs, Kept(fs));
  }

  lemma RepresentableAnyOrder(n: nat, s: seq<File>, t: seq<File>)
    requires multiset(s) == multiset(t) && Representable(n, s)
    ensures Representable(n, t)
  {
    SizeOfAnyOrder(s, t);
  }

  lemma ParseNothing(buf: bytes, n: nat)
    requires HeaderSize(n) <= |buf|
    ensures Parse(buf, n, 0) == Done([])
  {
  }
}
