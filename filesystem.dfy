/**
 * The part of `std::fs` the vault uses, over a map from path to file contents.
 * Writes replace a whole file and do not fail; reading a missing file is `NotFound`;
 * `read_to_string` of bytes that are not UTF-8 is `InvalidData`.
 */
module FileSystem {
  import opened Prelude
  import opened Errors
  import Utf8

  type Path = string

  /** `PathBuf::join` for a single file name. */
  function Join(dir: Path, name: string): (p: Path)
    ensures |p| == |dir| + 1 + |name|
  {
    dir + "/" + name
  }

  /** Two names under the same directory give the same path exactly when they are equal. */
  lemma JoinDistinct(dir: Path, a: string, b: string)
    ensures (Join(dir, a) == Join(dir, b)) <==> a == b
  {
    assert Join(dir, a)[|dir| + 1..] == a;
    assert Join(dir, b)[|dir| + 1..] == b;
  }

  /** `std::fs::read`. */
  function ReadFile(files: map<Path, Bytes>, p: Path): (r: Result<Bytes>)
    ensures r.Ok? <==> p in files
    ensures r.Ok? ==> r.value == files[p]
    ensures r.Err? ==> r.error == Io(NotFound)
  {
    if p in files then Ok(files[p]) else Err(Io(NotFound))
  }

  /** `std::fs::read_to_string`. */
  function ReadFileToString(files: map<Path, Bytes>, p: Path): (r: Result<string>)
    ensures p !in files ==> r == Err(Io(NotFound))
    ensures r.Ok? ==> p in files && Utf8.Encode(r.value) == files[p]
    ensures r.Err? ==> r.error.Io?
  {
    var b :- ReadFile(files, p);
    match Utf8.Decode(b)
    case None => Err(Io(InvalidData))
    case Some(s) =>
      Utf8.EncodeDecode(b);
      Ok(s)
  }

  /** Text written with `std::fs::write` reads back with `read_to_string`. */
  lemma ReadWrittenString(files: map<Path, Bytes>, p: Path, s: string)
    ensures ReadFileToString(files[p := Utf8.Encode(s)], p) == Ok(s)
  {
    Utf8.DecodeEncode(s);
  }

  class FileSystem {
    var files: map<Path, Bytes>

    constructor(initial: map<Path, Bytes>)
      ensures files == initial
    {
      files := initial;
    }

    /** `Path::exists`. */
    function Exists(p: Path): (r: bool)
      reads this
      ensures r <==> p in files
    {
      p in files
    }

    method Read(p: Path) returns (r: Result<Bytes>)
      ensures r == ReadFile(files, p)
    {
      if p in files {
        r := Ok(files[p]);
      } else {
        r := Err(Io(NotFound));
      }
    }

    method ReadToString(p: Path) returns (r: Result<string>)
      ensures r == ReadFileToString(files, p)
    {
      var b := Read(p);
      if b.Err? {
        return Err(b.error);
      }
      match Utf8.Decode(b.value)
      case None => r := Err(Io(InvalidData));
      case Some(s) => r := Ok(s);
    }

    /** `std::fs::write`: the file's whole contents are replaced. */
    method Write(p: Path, data: Bytes)
      modifies this
      ensures files == old(files)[p := data]
    {
      files := files[p := data];
    }

    /** `std::fs::remove_file`. */
    method Remove(p: Path) returns (r: Result<()>)
      modifies this
      ensures r.Ok? <==> p in old(files)
      ensures r.Err? ==> r.error == Io(NotFound)
      ensures files == old(files) - {p}
    {
      if p in files {
        r := Ok(());
      } else {
        r := Err(Io(NotFound));
      }
      files := files - {p};
    }
  }
}
