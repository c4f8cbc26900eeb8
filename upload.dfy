/** The checks `POST /inference` makes on the uploaded file before it touches
    the disk (app.py, `inference`). */
module Upload {
  import opened Strings

  newtype byte = x: int | 0 <= x < 256

  /** One part of a multipart request: the client's file name and its bytes. */
  datatype FilePart = FilePart(filename: string, data: seq<byte>)

  /** The name of the form field the handler reads. */
  const FileField: string := "file"

  /** The extensions the handler lets through, compared in lower case. */
  const PermittedExtensions: seq<string> := ["tif", "tiff"]

  /** The three 400 answers, in the order the handler tests for them. */
  datatype Rejection = NoFilePart | FileTypeNotPermitted | NoSelectedFile
  {
    function Message(): string
    {
      match this
      case NoFilePart => "No file part"
      case FileTypeNotPermitted => "File type not permitted"
      case NoSelectedFile => "No selected file"
    }
  }

  datatype Verdict = Rejected(reason: Rejection) | Accepted(part: FilePart)

  /** The extension test of app.py:39: the last dot-separated piece of the
      name, lower-cased, is one of the permitted extensions. Its contract
      states the test without splitting. */
  predicate ExtensionPermitted(filename: string): (ok: bool)
    ensures ok <==> LooksLikeRaster(filename)
  {
    SplitTestIff(filename);
    SplitTest(filename)
  }

  /** The test exactly as the source computes it. */
  predicate SplitTest(filename: string)
  {
    Lower(LastSegment(filename, '.')) in PermittedExtensions
  }

  /** The same test stated without splitting: the lower-cased name is a bare
      `tif`/`tiff`, or ends in `.tif`/`.tiff`. */
  predicate LooksLikeRaster(filename: string)
  {
    var l := Lower(filename);
    l == "tif" || l == "tiff" || EndsWith(l, ".tif") || EndsWith(l, ".tiff")
  }

  /** The early returns of the handler (app.py:34-43): field present, then
      extension, then empty name. */
  function Validate(files: map<string, FilePart>): (v: Verdict)
    ensures v.Accepted? ==> FileField in files && v.part == files[FileField]
  {
    if FileField !in files then Rejected(NoFilePart)
    else
      var part := files[FileField];
      if !ExtensionPermitted(part.filename) then Rejected(FileTypeNotPermitted)
      else if part.filename == "" then Rejected(NoSelectedFile)
      else Accepted(part)
  }

  lemma LowerCharDot(c: char)
    ensures LowerChar(c) == '.' <==> c == '.'
  {
  }

  /** Lower-casing commutes with taking a suffix. */
  lemma LowerSuffix(s: string, k: nat)
    requires k <= |s|
    ensures Lower(s[k..]) == Lower(s)[k..]
  {
  }

  /** Lower-casing neither adds nor removes dots. */
  lemma LowerKeepsDots(s: string)
    ensures '.' in s <==> '.' in Lower(s)
  {
    if '.' in s {
      var i :| 0 <= i < |s| && s[i] == '.';
      assert Lower(s)[i] == '.';
    }
    if '.' in Lower(s) {
      var i :| 0 <= i < |s| && Lower(s)[i] == '.';
      LowerCharDot(s[i]);
    }
  }

  /** The last `.`-segment of `name`, once lower-cased, is `ext`, for an
      extension `ext` that is already lower case and has no dot. */
  lemma ExtensionByEnding(name: string, ext: string)
    requires '.' !in ext
    requires EndsWith(Lower(name), "." + ext)
    ensures Lower(LastSegment(name, '.')) == ext
  {
    var n := |name|;
    var k := |ext|;
    var l := Lower(name);
    assert l[n - k - 1] == '.';
    LowerCharDot(name[n - k - 1]);
    assert l[n - k..] == ext;
    LowerSuffix(name, n - k);
    LowerKeepsDots(name[n - k..]);
    LastSegmentUnique(name, '.', name[n - k..]);
  }

  /** A name whose lower-cased form has no dot is its own last segment. */
  lemma ExtensionWhole(name: string)
    requires '.' !in Lower(name)
    ensures Lower(LastSegment(name, '.')) == Lower(name)
  {
    LowerKeepsDots(name);
    assert name[|name| - |name|..] == name;
    LastSegmentUnique(name, '.', name);
  }

  /** A string whose last `k` characters are a raster extension, preceded by
      a dot or by nothing, is or ends in that extension. */
  lemma EndingFromSuffix(l: string, k: nat)
    requires k <= |l|
    requires l[|l| - k..] == "tif" || l[|l| - k..] == "tiff"
    requires k == |l| || l[|l| - k - 1] == '.'
    ensures l == "tif" || l == "tiff" || EndsWith(l, ".tif") || EndsWith(l, ".tiff")
  {
    var n := |l|;
    if k == n {
      assert l == l[n - k..];
    } else {
      assert l[n - k - 1..] == [l[n - k - 1]] + l[n - k..];
    }
  }

  /** A permitted extension shows at the end of the lower-cased name. */
  lemma PermittedLooksLikeRaster(filename: string)
    requires SplitTest(filename)
    ensures LooksLikeRaster(filename)
  {
    var r := LastSegment(filename, '.');
    var n, k := |filename|, |r|;
    var l := Lower(filename);
    assert filename[n - k..] == r;
    LowerSuffix(filename, n - k);
    if k < n {
      assert l[n - k - 1] == '.';
    }
    EndingFromSuffix(l, k);
  }

  /** A name ending in a raster extension passes the split-based test. */
  lemma LooksLikeRasterPermitted(filename: string)
    requires LooksLikeRaster(filename)
    ensures SplitTest(filename)
  {
    var l := Lower(filename);
    if l == "tif" || l == "tiff" {
      assert '.' !in l;
      ExtensionWhole(filename);
    } else if EndsWith(l, ".tif") {
      ExtensionByEnding(filename, "tif");
    } else {
      ExtensionByEnding(filename, "tiff");
    }
  }

  /** The split-based test and the ending-based description agree, in both
      directions. */
  lemma SplitTestIff(filename: string)
    ensures SplitTest(filename) <==> LooksLikeRaster(filename)
  {
    if SplitTest(filename) {
      PermittedLooksLikeRaster(filename);
    }
    if LooksLikeRaster(filename) {
      LooksLikeRasterPermitted(filename);
    }
  }

  /** The handler accepts exactly the requests that carry a `file` part whose
      name ends in a raster extension. */
  lemma AcceptedIff(files: map<string, FilePart>)
    ensures Validate(files).Accepted? <==>
            FileField in files && LooksLikeRaster(files[FileField].filename)
  {
    if FileField in files {
      var name := files[FileField].filename;
      assert ExtensionPermitted(name) <==> LooksLikeRaster(name);
    }
  }

  /** A missing `file` part is the first thing reported, whatever else the
      request holds. */
  lemma MissingPartFirst(files: map<string, FilePart>)
    requires FileField !in files
    ensures Validate(files) == Rejected(NoFilePart)
    ensures Validate(files).reason.Message() == "No file part"
  {
  }

  /** A `file` part whose name does not end in a raster extension is answered
      "File type not permitted". */
  lemma WrongExtensionMessage(files: map<string, FilePart>)
    requires FileField in files && !LooksLikeRaster(files[FileField].filename)
    ensures Validate(files) == Rejected(FileTypeNotPermitted)
    ensures Validate(files).reason.Message() == "File type not permitted"
  {
  }

  /** The empty name fails the extension test, so "No selected file" is never
      answered: the check for it comes after the extension check. */
  lemma NoSelectedFileUnreachable(files: map<string, FilePart>)
    ensures Validate(files) != Rejected(NoSelectedFile)
    ensures FileField in files && files[FileField].filename == "" ==>
            Validate(files) == Rejected(FileTypeNotPermitted)
  {
    assert Lower("") == "";
    assert !LooksLikeRaster("");
  }

  /** Case is ignored. */
  lemma ExampleUpperCase()
    ensures ExtensionPermitted("a.TIF")
  {
    assert Lower("a.TIF")[1..] == ".tif";
  }

  /** Only the last segment matters. */
  lemma ExampleSeveralDots()
    ensures ExtensionPermitted("x.y.tiff")
    ensures !ExtensionPermitted("x.tif.png")
  {
    assert Lower("x.y.tiff")[3..] == ".tiff";
    var l := Lower("x.tif.png");
    assert l == "x.tif.png";
    assert l[5..] == ".png";
  }

  /** A name without a dot is judged whole; the empty name fails. */
  lemma ExampleNoDot()
    ensures ExtensionPermitted("TIFF")
    ensures !ExtensionPermitted("")
  {
    assert Lower("TIFF") == "tiff";
  }
}
