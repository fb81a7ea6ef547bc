/** The upload filter of the prediction handler: `allowed_file` accepts a
    filename when the text after its last `.`, lower-cased, is one of a fixed
    set of image extensions. Strings are sequences of characters; lower-casing
    is ASCII lower-casing. */
module FileExtensions {

  /** The allow-list, written in lower case. */
  const AllowedExtensions: set<string> := {"png", "jpg", "jpeg", "gif"}

  /** Maps an ASCII upper-case letter to its lower-case form; every other
      character is left as it is. */
  function LowerChar(c: char): char
  {
    if 'A' <= c <= 'Z' then (c as int + 32) as char else c
  }

  /** Python's `str.lower()`, restricted to ASCII letters. It keeps the
      length of the text. */
  function Lower(s: string): (r: string)
    ensures |r| == |s|
  {
    seq(|s|, i requires 0 <= i < |s| => LowerChar(s[i]))
  }

  /** Lower-cased text holds no upper-case ASCII letter, and lower-casing it
      again changes nothing. */
  lemma LowerIsLowerCase(s: string)
    ensures forall i :: 0 <= i < |s| ==> !('A' <= Lower(s)[i] <= 'Z')
    ensures Lower(Lower(s)) == Lower(s)
  {
  }

  /** ASCII upper-casing, used to spell the allow-list as the refusal
      message does. */
  function UpperChar(c: char): char
  {
    if 'a' <= c <= 'z' then (c as int - 32) as char else c
  }

  function Upper(s: string): string
  {
    seq(|s|, i requires 0 <= i < |s| => UpperChar(s[i]))
  }

  /** Python's `str.rfind(c)`: the index of the last `c` in `s`, or -1. */
  function RFind(s: string, c: char): (i: int)
    ensures -1 <= i < |s|
    ensures 0 <= i ==> s[i] == c
    ensures forall j :: i < j < |s| ==> s[j] != c
  {
    if s == [] then -1
    else if s[|s| - 1] == c then |s| - 1
    else RFind(s[..|s| - 1], c)
  }

  /** Python's `s.rsplit(sep, 1)` for a one-character separator: the name
      unsplit when the separator is absent, otherwise the text before and
      after its last occurrence. */
  function RSplitOnce(s: string, sep: char): (parts: seq<string>)
    ensures |parts| == (if sep in s then 2 else 1)
    ensures sep !in s ==> parts[0] == s
    ensures sep in s ==> parts[0] + [sep] + parts[1] == s && sep !in parts[1]
  {
    var i := RFind(s, sep);
    if i < 0 then [s]
    else
      assert s == s[..i] + [sep] + s[i + 1..];
      [s[..i], s[i + 1..]]
  }

  /** `allowed_file`: the name contains a `.` and its last extension,
      lower-cased, is on the allow-list. An accepted name therefore has a
      `.` and at least four characters, the shortest entry being three long. */
  function AllowedFile(filename: string): (ok: bool)
    ensures ok ==> '.' in filename && |filename| >= 4
  {
    '.' in filename && Lower(RSplitOnce(filename, '.')[1]) in AllowedExtensions
  }

  /** Reference reading of the filter, with no splitting: some `.` in the
      name is followed, up to the end of the name, by an allowed extension in
      any letter case. */
  ghost predicate EndsWithAllowedExtension(filename: string)
  {
    exists k :: 0 <= k < |filename| && filename[k] == '.' && Lower(filename[k + 1..]) in AllowedExtensions
  }

  lemma NoAllowedExtensionHasDot(e: string)
    requires e in AllowedExtensions
    ensures '.' !in e
  {
  }

  /** Lower-casing never creates or removes a `.`. */
  lemma LowerKeepsDots(s: string, i: int)
    requires 0 <= i < |s|
    ensures Lower(s)[i] == '.' <==> s[i] == '.'
  {
  }

  /** Lower-casing commutes with taking a suffix. */
  lemma LowerSuffix(s: string, i: int)
    requires 0 <= i <= |s|
    ensures Lower(s[i..]) == Lower(s)[i..]
  {
  }

  /** A separator with no separator after it is the last one. */
  lemma RFindAt(s: string, c: char, k: int)
    requires 0 <= k < |s| && s[k] == c
    requires forall j :: k < j < |s| ==> s[j] != c
    ensures RFind(s, c) == k
  {
  }

  /** The extension `allowed_file` inspects witnesses the reference reading. */
  lemma AllowedFileHasAllowedExtension(filename: string)
    requires AllowedFile(filename)
    ensures EndsWithAllowedExtension(filename)
  {
    var k := RFind(filename, '.');
    assert filename[k] == '.' && Lower(filename[k + 1..]) in AllowedExtensions;
  }

  /** An allowed extension after some `.` holds no `.` itself, so that `.`
      is the last one and `allowed_file` inspects that very extension. */
  lemma AllowedExtensionIsLast(filename: string, k: int)
    requires 0 <= k < |filename| && filename[k] == '.'
    requires Lower(filename[k + 1..]) in AllowedExtensions
    ensures RFind(filename, '.') == k
    ensures AllowedFile(filename)
  {
    var tail := filename[k + 1..];
    NoAllowedExtensionHasDot(Lower(tail));
    forall j | k < j < |filename|
      ensures filename[j] != '.'
    {
      LowerKeepsDots(tail, j - k - 1);
      assert Lower(tail)[j - k - 1] in Lower(tail);
    }
    RFindAt(filename, '.', k);
  }

  /** The split and the reference reading agree: `allowed_file` holds exactly
      when the name ends in `.` followed by an allowed extension. */
  lemma AllowedFileMeansAllowedExtension(filename: string)
    ensures AllowedFile(filename) <==> EndsWithAllowedExtension(filename)
  {
    if AllowedFile(filename) {
      AllowedFileHasAllowedExtension(filename);
    }
    if EndsWithAllowedExtension(filename) {
      var k :| 0 <= k < |filename| && filename[k] == '.' && Lower(filename[k + 1..]) in AllowedExtensions;
      AllowedExtensionIsLast(filename, k);
    }
  }

  /** Only the text after the last `.` decides: whatever the stem holds,
      including further dots, the name is accepted exactly when that
      extension, lower-cased, is on the allow-list. */
  lemma ExtensionDecides(stem: string, ext: string)
    requires '.' !in ext
    ensures AllowedFile(stem + "." + ext) <==> Lower(ext) in AllowedExtensions
  {
    var s := stem + "." + ext;
    assert s[|stem|] == '.';
    assert s[|stem| + 1..] == ext;
    forall j | |stem| < j < |s|
      ensures s[j] != '.'
    {
      assert s[j] == ext[j - |stem| - 1];
    }
    RFindAt(s, '.', |stem|);
  }

  /** A name that ends in `.` has the empty extension and is refused. */
  lemma EmptyExtensionRejected(stem: string)
    ensures !AllowedFile(stem + ".")
  {
    ExtensionDecides(stem, "");
    assert stem + "." + "" == stem + ".";
  }

  /** A name without a `.`, the empty name among them, is refused. */
  lemma NoDotRejected(filename: string)
    requires '.' !in filename
    ensures !AllowedFile(filename)
  {
  }

  /** A name accepted by the check stays accepted under any change of
      letter case: the same `.` leads to the same lower-cased extension. */
  lemma AcceptedUnderCaseChange(a: string, b: string)
    requires Lower(a) == Lower(b) && AllowedFile(a)
    ensures AllowedFile(b)
  {
    var k := RFind(a, '.');
    var ext := Lower(a[k + 1..]);
    assert ext in AllowedExtensions;
    LowerKeepsDots(a, k);
    LowerKeepsDots(b, k);
    assert b[k] == '.';
    LowerSuffix(a, k + 1);
    LowerSuffix(b, k + 1);
    assert Lower(b[k + 1..]) == ext;
    AllowedExtensionIsLast(b, k);
  }

  /** The check ignores letter case: two names that lower-case to the same
      text get the same answer. */
  lemma CaseInsensitive(a: string, b: string)
    requires Lower(a) == Lower(b)
    ensures AllowedFile(a) <==> AllowedFile(b)
  {
    if AllowedFile(a) {
      AcceptedUnderCaseChange(a, b);
    }
    if AllowedFile(b) {
      AcceptedUnderCaseChange(b, a);
    }
  }

  /** A foreign inner extension does not refuse a name whose last
      extension is allowed. */
  lemma InnerExtensionIgnored()
    ensures AllowedFile("x.exe.png")
  {
    assert Lower("png") == "png";
    ExtensionDecides("x.exe", "png");
    assert "x.exe" + "." + "png" == "x.exe.png";
  }

  /** An archive-style double extension is judged by its last part. */
  lemma DoubleExtensionAccepted()
    ensures AllowedFile("a.tar.png")
  {
    assert Lower("png") == "png";
    ExtensionDecides("a.tar", "png");
    assert "a.tar" + "." + "png" == "a.tar.png";
  }

  /** An allowed inner extension does not admit a name whose last extension
      is foreign. */
  lemma LastExtensionRefused()
    ensures !AllowedFile("x.png.exe")
  {
    assert Lower("exe") == "exe";
    ExtensionDecides("x.png", "exe");
    assert "x.png" + "." + "exe" == "x.png.exe";
  }

  /** A bare extension with an empty stem is accepted. */
  lemma BareExtensionAccepted()
    ensures AllowedFile(".png")
  {
    assert Lower("png") == "png";
    ExtensionDecides("", "png");
    assert "" + "." + "png" == ".png";
  }

  /** An upper-case extension is accepted. */
  lemma UpperCaseExtensionAccepted()
    ensures AllowedFile("IMG.PNG")
  {
    assert Lower("PNG") == "png";
    ExtensionDecides("IMG", "PNG");
    assert "IMG" + "." + "PNG" == "IMG.PNG";
  }

  /** A name ending in `.` is refused. */
  lemma TrailingDotRefused()
    ensures !AllowedFile("name.")
  {
    EmptyExtensionRejected("name");
    assert "name" + "." == "name.";
  }
}
