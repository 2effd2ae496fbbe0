/** Classification of file names as media (`is_media_file` of the web application). */
module MediaFiles {
  import PosixPath

  /** The extensions counted as media, already in lower case. */
  const MediaExtensions: set<string> := {".jpg", ".jpeg", ".png", ".mov", ".mp4"}

  /** `str.lower` on the characters that matter here: A-Z become a-z, all else is kept. */
  function LowerChar(c: char): char {
    if 'A' <= c <= 'Z' then (c as int + 32) as char else c
  }

  /** The lower-cased string has no ASCII capital left, and every other character is kept in place. */
  function Lower(s: string): (r: string)
    ensures |r| == |s|
    ensures forall i :: 0 <= i < |s| ==> r[i] == LowerChar(s[i])
    ensures forall i :: 0 <= i < |r| ==> !('A' <= r[i] <= 'Z')
    ensures forall i :: 0 <= i < |s| && !('A' <= s[i] <= 'Z') ==> r[i] == s[i]
  {
    seq(|s|, i requires 0 <= i < |s| => LowerChar(s[i]))
  }

  /** Lower-casing twice is lower-casing once. */
  lemma LowerIdempotent(s: string)
    ensures Lower(Lower(s)) == Lower(s)
  {
    var r := Lower(s);
    assert forall i :: 0 <= i < |r| ==> Lower(r)[i] == r[i];
  }


  /**
   * A file is media exactly when its name, ignoring case, ends in one of the
   * media extensions and that ending is preceded, inside the final path
   * component, by at least one character that is not a dot.
   */
  predicate EndsInMediaExtension(f: string) {
    exists e :: e in MediaExtensions && |e| < |f| && Lower(f[|f| - |e|..]) == e &&
      exists j :: PosixPath.LastIndex(f, '/') < j < |f| - |e| && f[j] != '.'
  }

  lemma MediaExtensionShape(e: string)
    requires e in MediaExtensions
    ensures |e| >= 4 && e[0] == '.'
    ensures forall k :: 1 <= k < |e| ==> e[k] != '.' && e[k] != '/'
  {
  }

  /**
   * `is_media_file(filename)`: the lower-cased extension is one of the media
   * extensions, which happens exactly when the name, ignoring case, ends in
   * one of them preceded by a non-dot character of its final component.
   */
  predicate IsMediaFile(filename: string)
    ensures IsMediaFile(filename) <==> EndsInMediaExtension(filename)
  {
    MediaFileEndsInMediaExtension(filename);
    EndsInMediaExtensionIsMedia(filename);
    MediaExtensionOf(filename)
  }

  /** The test `is_media_file` performs, before its meaning is established. */
  predicate MediaExtensionOf(f: string) {
    Lower(PosixPath.Extension(f)) in MediaExtensions
  }

  lemma MediaFileEndsInMediaExtension(f: string)
    ensures MediaExtensionOf(f) ==> EndsInMediaExtension(f)
  {
    if MediaExtensionOf(f) {
      var ext := PosixPath.Extension(f);
      var e := Lower(ext);
      MediaExtensionShape(e);
      var sep := PosixPath.LastIndex(f, '/');
      var dot := PosixPath.LastIndex(f, '.');
      assert ext == f[dot..];
      var j :| sep + 1 <= j < dot && f[j] != '.';
      assert |f| - |e| == dot;
      assert e in MediaExtensions && |e| < |f| && Lower(f[|f| - |e|..]) == e;
      assert PosixPath.LastIndex(f, '/') < j < |f| - |e| && f[j] != '.';
    }
  }

  lemma EndsInMediaExtensionIsMedia(f: string)
    ensures EndsInMediaExtension(f) ==> MediaExtensionOf(f)
  {
    if EndsInMediaExtension(f) {
      var e :| e in MediaExtensions && |e| < |f| && Lower(f[|f| - |e|..]) == e &&
        exists j :: PosixPath.LastIndex(f, '/') < j < |f| - |e| && f[j] != '.';
      MediaExtensionShape(e);
      var k := |f| - |e|;
      var tail := f[k..];
      assert LowerChar(f[k]) == '.' by {
        assert f[k] == tail[0];
      }
      forall j | k < j < |f| ensures f[j] != '.' && f[j] != '/' {
        assert f[j] == tail[j - k];
        assert LowerChar(tail[j - k]) == e[j - k];
      }
      PosixPath.ExtensionFromSuffix(f, k);
    }
  }

  /** Case does not matter. */
  lemma UpperCaseExample()
    ensures IsMediaFile("A.JPG")
  {
    UpperCaseExtension();
    assert Lower(".JPG") == ".jpg" by {
      LowerLiteral(".JPG", ".jpg");
    }
  }

  /** Only the last dot counts. */
  lemma LastDotExample()
    ensures IsMediaFile("clip.tar.Mp4")
  {
    LastDotExtension();
    assert Lower(".Mp4") == ".mp4" by {
      LowerLiteral(".Mp4", ".mp4");
    }
  }

  lemma UpperCaseExtension()
    ensures PosixPath.Extension("A.JPG") == ".JPG"
  {
    assert PosixPath.LastIndex("A.JPG", '/') == -1;
    assert "A.JPG"[0] != '.';
    PosixPath.ExtensionFromSuffix("A.JPG", 1);
  }

  lemma LastDotExtension()
    ensures PosixPath.Extension("clip.tar.Mp4") == ".Mp4"
  {
    assert PosixPath.LastIndex("clip.tar.Mp4", '/') == -1;
    assert "clip.tar.Mp4"[0] != '.';
    PosixPath.ExtensionFromSuffix("clip.tar.Mp4", 8);
  }

  /** Lower-casing checked character by character. */
  lemma LowerLiteral(s: string, t: string)
    requires |s| == |t| && forall i :: 0 <= i < |s| ==> LowerChar(s[i]) == t[i]
    ensures Lower(s) == t
  {
  }

  /** A bare extension and a dot-file have no extension at all. */
  lemma NoStemExamples()
    ensures !IsMediaFile("jpg")
    ensures !IsMediaFile(".jpg")
  {
    assert PosixPath.Extension("jpg") == "";
    WithoutExtensionNotMedia("jpg");
    assert PosixPath.LastIndex(".jpg", '.') == 0;
    assert PosixPath.Extension(".jpg") == "";
    WithoutExtensionNotMedia(".jpg");
  }

  /** Leading dots of the final component do not start an extension. */
  lemma LeadingDotsExample()
    ensures !IsMediaFile("photos/..png")
  {
    LeadingDotsHaveNoExtension();
    WithoutExtensionNotMedia("photos/..png");
  }

  /** A dot in a parent directory does not start an extension. */
  lemma ParentDotExample()
    ensures !IsMediaFile("album.jpg/notes")
  {
    ParentDotIsNoExtension();
    WithoutExtensionNotMedia("album.jpg/notes");
  }

  lemma WithoutExtensionNotMedia(f: string)
    requires PosixPath.Extension(f) == ""
    ensures !IsMediaFile(f)
  {
    assert Lower("") == "";
  }

  lemma LeadingDotsHaveNoExtension()
    ensures PosixPath.Extension("photos/..png") == ""
  {
    var p := "photos/..png";
    assert p[..11] == "photos/..pn" && "photos/..pn"[..10] == "photos/..p" && "photos/..p"[..9] == "photos/..";
    assert PosixPath.LastIndex("photos/..", '.') == 8;
    assert PosixPath.LastIndex("photos/..p", '.') == 8;
    assert PosixPath.LastIndex("photos/..pn", '.') == 8;
    assert PosixPath.LastIndex(p, '.') == 8;
    assert p[..8] == "photos/." && "photos/."[..7] == "photos/";
    assert PosixPath.LastIndex("photos/", '/') == 6;
    assert PosixPath.LastIndex(p, '/') == 6;
    assert !exists j | 7 <= j < 8 :: p[j] != '.';
  }

  lemma ParentDotIsNoExtension()
    ensures PosixPath.Extension("album.jpg/notes") == ""
  {
    assert PosixPath.LastIndex("album.jpg/notes", '/') == 9;
    assert PosixPath.LastIndex("album.jpg/notes", '.') <= 9;
  }
}
