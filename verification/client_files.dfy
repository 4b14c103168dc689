/**
 * The browser-side helpers of DataBase-Analyser/src/utils/dbParser.js:
 * the extension of a chosen file's name, whether it is one the server
 * accepts, and the preview shown before upload. The browser's `File` and
 * `FileReader` are not modelled: a file is its name and bytes, and the
 * text decoding of a chunk is a parameter that may fail.
 */
module ClientFiles {
  import opened Wrappers
  import Text
  import Dispatch

  /** `x >>> 0`: the number reduced modulo 2^32, as an unsigned 32-bit value. */
  function ToUint32(x: int): (r: nat)
    ensures r < 0x1_0000_0000
    ensures (r - x) % 0x1_0000_0000 == 0
  {
    x % 0x1_0000_0000
  }

  /** `s.lastIndexOf(".")`: the index of the last `.`, or -1. */
  function LastIndexOfDot(s: string): (d: int)
    ensures -1 <= d < |s|
    ensures d >= 0 ==> s[d] == '.'
    ensures forall k :: d < k < |s| ==> s[k] != '.'
  {
    if |s| == 0 then -1
    else if s[|s| - 1] == '.' then |s| - 1
    else LastIndexOfDot(s[..|s| - 1])
  }

  /** `s.slice(start)` for a non-negative start: empty once the start is past the end. */
  function SliceFrom(s: string, start: nat): (r: string)
    ensures start <= |s| ==> r == s[start..]
    ensures start >= |s| ==> r == ""
  {
    if start <= |s| then s[start..] else ""
  }

  /**
   * `getFileExtension`: the slice after `((lastIndexOf(".") - 1) >>> 0) + 2`.
   * With no dot the start wraps to 2^32 and with the dot at index 0 to
   * 2^32 + 1, both past the end of any name shorter than 2^32.
   */
  function FileExtension(name: string): (ext: string)
  {
    SliceFrom(name, ToUint32(LastIndexOfDot(name) - 1) + 2)
  }

  /** Where the slice starts, for each possible index of the last dot. */
  lemma SliceStart(d: int)
    requires -1 <= d < 0x1_0000_0000
    ensures d >= 1 ==> ToUint32(d - 1) + 2 == d + 1
    ensures d == 0 ==> ToUint32(d - 1) + 2 == 0x1_0000_0001
    ensures d == -1 ==> ToUint32(d - 1) + 2 == 0x1_0000_0000
  {
  }

  /** The extension is exactly the text after the last dot, when that dot is not the first character. */
  lemma ExtensionAfterLastDot(name: string)
    requires |name| < 0x1_0000_0000
    ensures LastIndexOfDot(name) >= 1 ==> FileExtension(name) == name[LastIndexOfDot(name) + 1..]
    ensures LastIndexOfDot(name) < 1 ==> FileExtension(name) == ""
    ensures forall k :: 0 <= k < |FileExtension(name)| ==> FileExtension(name)[k] != '.'
  {
    var d := LastIndexOfDot(name);
    SliceStart(d);
    var start := ToUint32(d - 1) + 2;
    assert FileExtension(name) == SliceFrom(name, start);
    if d >= 1 {
      assert start == d + 1;
      var ext := name[d + 1..];
      assert SliceFrom(name, start) == ext;
      forall k | 0 <= k < |ext| ensures ext[k] != '.' {
        assert ext[k] == name[d + 1 + k];
      }
    } else {
      assert start >= |name|;
    }
  }

  /** `a.tar.gz` has extension `gz`. */
  lemma LastExtensionOnly()
    ensures FileExtension("a.tar.gz") == "gz"
  {
    var name := "a.tar.gz";
    assert LastIndexOfDot(name) == 5 by {
      assert name[5] == '.' && name[6] == 'g' && name[7] == 'z';
    }
  }

  /** A chosen file: its name and its bytes. */
  datatype File = File(name: string, bytes: seq<bv8>)

  /** The extensions the browser offers for upload, without their dot. */
  const SupportedExtensions: seq<string> := ["db", "sqlite", "sql", "csv", "xlsx"]

  /**
   * `isSupportedDatabaseFile`: false without a file; otherwise true exactly
   * when the name has a last dot, not at its start, and the text after that
   * dot, lower-cased, is one of the supported extensions.
   */
  function IsSupportedDatabaseFile(file: Option<File>): (ok: bool)
    ensures file.None? ==> !ok
    ensures file.Some? ==> (ok <==> Text.ToLower(FileExtension(file.value.name)) in SupportedExtensions)
    ensures file.Some? && |file.value.name| < 0x1_0000_0000 ==> (ok <==> SupportedAfterLastDot(file.value.name))
  {
    match file
    case None => false
    case Some(f) =>
      var ok := Text.ToLower(FileExtension(f.name)) in SupportedExtensions;
      assert |f.name| < 0x1_0000_0000 ==> (ok <==> SupportedAfterLastDot(f.name)) by {
        if |f.name| < 0x1_0000_0000 {
          SupportedByLastDot(f.name);
        }
      }
      ok
  }

  /** Some dot other than the first character is the name's last dot, and the text after it, lower-cased, is supported. */
  ghost predicate SupportedAfterLastDot(name: string)
  {
    exists d :: 1 <= d < |name| && name[d] == '.' && (forall k :: d < k < |name| ==> name[k] != '.') &&
      Text.ToLower(name[d + 1..]) in SupportedExtensions
  }

  lemma SupportedByLastDot(name: string)
    requires |name| < 0x1_0000_0000
    ensures Text.ToLower(FileExtension(name)) in SupportedExtensions <==> SupportedAfterLastDot(name)
  {
    ExtensionAfterLastDot(name);
    SupportedAfterDot(name, FileExtension(name));
  }

  /** `SupportedByLastDot` for any text that is what follows the last dot when that dot is not the first character, and empty otherwise. */
  lemma SupportedAfterDot(name: string, ext: string)
    requires LastIndexOfDot(name) >= 1 ==> ext == name[LastIndexOfDot(name) + 1..]
    requires LastIndexOfDot(name) < 1 ==> ext == ""
    ensures Text.ToLower(ext) in SupportedExtensions <==> SupportedAfterLastDot(name)
  {
    var d := LastIndexOfDot(name);
    if d >= 1 {
      var lower := Text.ToLower(name[d + 1..]);
      assert SupportedAfterLastDot(name) <==> lower in SupportedExtensions by {
        if SupportedAfterLastDot(name) {
          var e :| 1 <= e < |name| && name[e] == '.' && (forall k :: e < k < |name| ==> name[k] != '.') &&
            Text.ToLower(name[e + 1..]) in SupportedExtensions;
          assert d == e;
        }
      }
    } else {
      assert forall e :: 1 <= e < |name| ==> name[e] != '.';
      assert !SupportedAfterLastDot(name);
      assert Text.ToLower("") !in SupportedExtensions;
    }
  }

  /**
   * For a plain file name (no `/`), the browser's extension is the server's
   * `path.extname` without its dot.
   */
  lemma ClientServerExtension(name: string)
    requires |name| < 0x1_0000_0000
    requires forall k :: 0 <= k < |name| ==> name[k] != '/'
    ensures FileExtension(name) == if Dispatch.Extension(name) == "" then "" else Dispatch.Extension(name)[1..]
  {
    ExtensionAfterLastDot(name);
    var d := LastIndexOfDot(name);
    if |name| > 0 {
      assert Dispatch.TrimmedEnd(name) == |name|;
      Dispatch.ComponentStartIs(name, |name|, 0);
      if d >= 0 {
        Dispatch.LastDotIs(name, 0, |name|, d);
      } else {
        assert Dispatch.LastDot(name, 0, |name|) == -1;
      }
    }
  }

  /** The server's list is the browser's list with a dot in front of each entry. */
  lemma DottedMember(y: string)
    ensures ("." + y) in Dispatch.ServerExtensions <==> y in SupportedExtensions
  {
    var x := "." + y;
    assert x[1..] == y;
    if y in SupportedExtensions {
      assert "." + "db" == ".db" && "." + "sqlite" == ".sqlite" && "." + "sql" == ".sql";
      assert "." + "csv" == ".csv" && "." + "xlsx" == ".xlsx";
    }
    if x in Dispatch.ServerExtensions {
      assert y == "db" || y == "sqlite" || y == "csv" || y == "xlsx" || y == "sql";
      assert y in SupportedExtensions;
    }
  }

  /** The browser accepts a plain file name exactly when the server has a reader for it. */
  lemma ClientAgreesWithServer(f: File)
    requires |f.name| < 0x1_0000_0000
    requires forall k :: 0 <= k < |f.name| ==> f.name[k] != '/'
    ensures IsSupportedDatabaseFile(Some(f)) <==> Dispatch.FormatOf(Text.ToLower(Dispatch.Extension(f.name))).Some?
  {
    ClientServerExtension(f.name);
    var ext := Dispatch.Extension(f.name);
    Dispatch.FormatOfAccepts(Text.ToLower(ext));
    if ext != "" {
      var lower := Text.ToLower(ext[1..]);
      assert ext == "." + ext[1..];
      Text.ToLowerConcat(".", ext[1..]);
      assert Text.ToLower(ext) == "." + lower;
      DottedMember(lower);
    } else {
      assert Text.ToLower("") == "";
    }
  }

  /**
   * Where multer's disk storage puts an upload: under the upload directory,
   * named by the upload time in milliseconds, a dash and the browser's file
   * name. The server's dispatch reads the extension of this path.
   */
  function StoredPath(dir: string, now: nat, name: string): string
  {
    dir + Text.NatToString(now) + "-" + name
  }

  /**
   * The stored path's extension is the browser's name from its last dot on,
   * even when that dot is the name's first character, and empty when the
   * name has no dot: the time stamp always stands before the name.
   */
  lemma StoredExtension(dir: string, now: nat, name: string)
    requires dir == "" || dir[|dir| - 1] == '/'
    requires forall k :: 0 <= k < |name| ==> name[k] != '/'
    ensures LastIndexOfDot(name) >= 0 ==> Dispatch.Extension(StoredPath(dir, now, name)) == name[LastIndexOfDot(name)..]
    ensures LastIndexOfDot(name) < 0 ==> Dispatch.Extension(StoredPath(dir, now, name)) == ""
  {
    var stamp := Text.NatToString(now);
    forall k | 0 <= k < |stamp| ensures stamp[k] != '/' && stamp[k] != '.' {
      assert Text.IsDigit(stamp[k]);
    }
    StampedExtension(dir, stamp, name, StoredPath(dir, now, name));
  }

  /** `StoredExtension` for any stamp of characters that are neither dots nor slashes. */
  lemma StampedExtension(dir: string, stamp: string, name: string, p: string)
    requires dir == "" || dir[|dir| - 1] == '/'
    requires forall k :: 0 <= k < |stamp| ==> stamp[k] != '/' && stamp[k] != '.'
    requires forall k :: 0 <= k < |name| ==> name[k] != '/'
    requires p == dir + stamp + "-" + name
    ensures LastIndexOfDot(name) >= 0 ==> Dispatch.Extension(p) == name[LastIndexOfDot(name)..]
    ensures LastIndexOfDot(name) < 0 ==> Dispatch.Extension(p) == ""
  {
    StampedLayout(dir, stamp, name, p);
    var d := LastIndexOfDot(name);
    if d >= 0 {
      StampedDotted(dir, stamp, name, p, d);
    } else {
      StampedDotless(dir, stamp, name, p);
    }
  }

  lemma StampedDotted(dir: string, stamp: string, name: string, p: string, d: nat)
    requires dir == "" || dir[|dir| - 1] == '/'
    requires forall k :: 0 <= k < |stamp| ==> stamp[k] != '/'
    requires forall k :: 0 <= k < |name| ==> name[k] != '/'
    requires d < |name| && name[d] == '.' && forall k :: d < k < |name| ==> name[k] != '.'
    requires |p| == |dir| + |stamp| + 1 + |name|
    requires forall k :: 0 <= k < |dir| ==> p[k] == dir[k]
    requires forall k :: |dir| <= k < |dir| + |stamp| ==> p[k] == stamp[k - |dir|]
    requires p[|dir| + |stamp|] == '-'
    requires forall k :: |dir| + |stamp| < k < |p| ==> p[k] == name[k - |dir| - |stamp| - 1]
    ensures Dispatch.Extension(p) == name[d..]
  {
    var a, off := |dir|, |dir| + |stamp| + 1;
    assert a == 0 || p[a - 1] == '/';
    assert forall i :: a <= i < off + d ==> p[i] != '/' by {
      forall i | a <= i < off + d ensures p[i] != '/' {
        if i >= off {
          assert p[i] == name[i - off];
        }
      }
    }
    assert forall i :: off + d < i < |p| ==> p[i] != '/' && p[i] != '.' by {
      forall i | off + d < i < |p| ensures p[i] != '/' && p[i] != '.' {
        assert p[i] == name[i - off];
      }
    }
    assert p[off + d..] == name[d..] by {
      forall i | 0 <= i < |name| - d ensures p[off + d..][i] == name[d..][i] {
        assert p[off + d + i] == name[d + i];
      }
    }
    Dispatch.ExtensionAt(p, a, off + d, off - 1);
  }

  lemma StampedDotless(dir: string, stamp: string, name: string, p: string)
    requires dir == "" || dir[|dir| - 1] == '/'
    requires forall k :: 0 <= k < |stamp| ==> stamp[k] != '/' && stamp[k] != '.'
    requires forall k :: 0 <= k < |name| ==> name[k] != '/' && name[k] != '.'
    requires |p| == |dir| + |stamp| + 1 + |name|
    requires forall k :: 0 <= k < |dir| ==> p[k] == dir[k]
    requires forall k :: |dir| <= k < |dir| + |stamp| ==> p[k] == stamp[k - |dir|]
    requires p[|dir| + |stamp|] == '-'
    requires forall k :: |dir| + |stamp| < k < |p| ==> p[k] == name[k - |dir| - |stamp| - 1]
    ensures Dispatch.Extension(p) == ""
  {
    var a := |dir|;
    assert a == 0 || p[a - 1] == '/';
    assert forall k :: a <= k < |p| ==> p[k] != '/' && p[k] != '.';
    assert Dispatch.TrimmedEnd(p) == |p|;
    Dispatch.ComponentStartIs(p, |p|, a);
  }

  /** Where each part of a stamped name sits. */
  lemma StampedLayout(dir: string, stamp: string, name: string, p: string)
    requires p == dir + stamp + "-" + name
    ensures |p| == |dir| + |stamp| + 1 + |name|
    ensures forall k :: 0 <= k < |dir| ==> p[k] == dir[k]
    ensures forall k :: |dir| <= k < |dir| + |stamp| ==> p[k] == stamp[k - |dir|]
    ensures p[|dir| + |stamp|] == '-'
    ensures forall k :: |dir| + |stamp| < k < |p| ==> p[k] == name[k - |dir| - |stamp| - 1]
  {
  }

  /**
   * On the name the server stores, the browser and the server agree for
   * every name whose last dot is not its first character.
   */
  lemma StoredNameAgrees(f: File, dir: string, now: nat)
    requires |f.name| < 0x1_0000_0000
    requires forall k :: 0 <= k < |f.name| ==> f.name[k] != '/'
    requires dir == "" || dir[|dir| - 1] == '/'
    requires LastIndexOfDot(f.name) != 0
    ensures IsSupportedDatabaseFile(Some(f)) <==>
      Dispatch.FormatOf(Text.ToLower(Dispatch.Extension(StoredPath(dir, now, f.name)))).Some?
  {
    StoredExtension(dir, now, f.name);
    AgreesFromLastDot(f, Dispatch.Extension(StoredPath(dir, now, f.name)));
  }

  /** The browser accepts a file exactly when the server accepts an extension that runs from the name's last dot, provided that dot is not the name's first character. */
  lemma AgreesFromLastDot(f: File, ext: string)
    requires |f.name| < 0x1_0000_0000
    requires LastIndexOfDot(f.name) != 0
    requires LastIndexOfDot(f.name) >= 0 ==> ext == f.name[LastIndexOfDot(f.name)..]
    requires LastIndexOfDot(f.name) < 0 ==> ext == ""
    ensures IsSupportedDatabaseFile(Some(f)) <==> Dispatch.FormatOf(Text.ToLower(ext)).Some?
  {
    var name := f.name;
    var d := LastIndexOfDot(name);
    assert IsSupportedDatabaseFile(Some(f)) <==> Text.ToLower(FileExtension(name)) in SupportedExtensions;
    ExtensionAfterLastDot(name);
    if d >= 1 {
      var rest := name[d + 1..];
      assert FileExtension(name) == rest;
      assert ext == "." + rest by {
        assert name[d..] == [name[d]] + rest;
      }
      ServerAcceptsDotted(rest);
    } else {
      assert FileExtension(name) == "" && ext == "";
      assert Text.ToLower("") == "";
      Dispatch.FormatOfAccepts("");
    }
  }

  /** The server accepts `.` followed by a text exactly when the browser accepts that text. */
  lemma ServerAcceptsDotted(rest: string)
    ensures Dispatch.FormatOf(Text.ToLower("." + rest)).Some? <==> Text.ToLower(rest) in SupportedExtensions
  {
    Text.ToLowerConcat(".", rest);
    assert Text.ToLower(".") == ".";
    Dispatch.FormatOfAccepts(Text.ToLower("." + rest));
    DottedMember(Text.ToLower(rest));
  }

  /** A file named just `.csv` is refused by the browser, yet the server would read its stored copy as CSV. */
  lemma HiddenNameDisagrees(dir: string, now: nat, bytes: seq<bv8>)
    requires dir == "" || dir[|dir| - 1] == '/'
    ensures !IsSupportedDatabaseFile(Some(File(".csv", bytes)))
    ensures Dispatch.FormatOf(Text.ToLower(Dispatch.Extension(StoredPath(dir, now, ".csv")))) == Some(Dispatch.CsvFormat)
  {
    var name := ".csv";
    assert name[0] == '.' && name[1] == 'c' && name[2] == 's' && name[3] == 'v';
    assert LastIndexOfDot(name) == 0;
    ExtensionAfterLastDot(name);
    assert Text.ToLower("") == "";
    StoredExtension(dir, now, name);
    assert name[0..] == name;
    assert Text.ToLower(name) == name;
  }

  /** How many bytes the preview reads from the start of the file. */
  const PreviewBytes: nat := 2048

  /**
   * `getFilePreview`: a message without a file; for `sql` and `csv` the
   * decoded text of the first 2048 bytes, or a fixed message when reading
   * fails; for every other extension a fixed message naming it, without
   * reading anything.
   */
  function FilePreview(file: Option<File>, decode: seq<bv8> -> Result<string>): (r: string)
    ensures file.None? ==> r == "No file selected"
    ensures file.Some? && Text.ToLower(FileExtension(file.value.name)) !in ["sql", "csv"] ==>
      r == "Binary file format (" + Text.ToLower(FileExtension(file.value.name)) + "). Upload to analyze contents."
    ensures file.Some? && Text.ToLower(FileExtension(file.value.name)) in ["sql", "csv"] ==>
      var chunk := file.value.bytes[..if |file.value.bytes| < PreviewBytes then |file.value.bytes| else PreviewBytes];
      r == match decode(chunk) case Success(text) => text case Failure(_) => "Error reading file preview"
  {
    match file
    case None => "No file selected"
    case Some(f) =>
      var extension := Text.ToLower(FileExtension(f.name));
      if extension in ["sql", "csv"] then
        match decode(f.bytes[..if |f.bytes| < PreviewBytes then |f.bytes| else PreviewBytes])
        case Success(text) => text
        case Failure(_) => "Error reading file preview"
      else
        "Binary file format (" + extension + "). Upload to analyze contents."
  }

  /** The preview of a text file depends only on its first 2048 bytes. */
  lemma PreviewReadsPrefixOnly(name: string, a: seq<bv8>, b: seq<bv8>, decode: seq<bv8> -> Result<string>)
    requires |a| >= PreviewBytes && |b| >= PreviewBytes && a[..PreviewBytes] == b[..PreviewBytes]
    ensures FilePreview(Some(File(name, a)), decode) == FilePreview(Some(File(name, b)), decode)
  {
  }

  /** The preview of a file that is not `sql` or `csv` never looks at its contents. */
  lemma BinaryPreviewIgnoresContents(name: string, a: seq<bv8>, b: seq<bv8>, d1: seq<bv8> -> Result<string>, d2: seq<bv8> -> Result<string>)
    requires Text.ToLower(FileExtension(name)) !in ["sql", "csv"]
    ensures FilePreview(Some(File(name, a)), d1) == FilePreview(Some(File(name, b)), d2)
  {
  }
}
