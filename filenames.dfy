/**
 * The upload filter of the two web front ends, `allowed_file`
 * (Flask.py and Flask3.py define it identically; only the order in which
 * their extension sets are written differs).
 */
module FileNames {

  /** `ALLOWED_EXTENSIONS`. */
  const AllowedExtensions: set<string> := {"xlsx", "csv"}

  /** The index of the last '.' in s, or -1 when s has none. */
  function LastDot(s: string): (r: int)
    ensures -1 <= r < |s|
    ensures r >= 0 ==> s[r] == '.'
    ensures forall k :: r < k < |s| ==> s[k] != '.'
  {
    if s == [] then -1
    else if s[|s| - 1] == '.' then |s| - 1
    else LastDot(s[..|s| - 1])
  }

  /** `str.lower()` on ASCII letters. */
  function LowerChar(ch: char): char
  {
    if 'A' <= ch <= 'Z' then (ch as int + 32) as char else ch
  }

  /** `str.lower()` on ASCII letters, character by character. */
  function Lower(s: string): string
  {
    seq(|s|, k requires 0 <= k < |s| => LowerChar(s[k]))
  }

  /** `'.' in filename and filename.rsplit('.', 1)[1].lower() in ALLOWED_EXTENSIONS`. */
  predicate AllowedFile(filename: string)
  {
    '.' in filename && Lower(filename[LastDot(filename) + 1..]) in AllowedExtensions
  }

  /** Lower-casing never makes or removes a dot. */
  lemma LowerCharDot(ch: char)
    ensures LowerChar(ch) == '.' <==> ch == '.'
  {
  }

  /** A name whose last m characters lower-case to "." + ext, where ext has no
      dot, has ext as its extension. */
  lemma SuffixDot(filename: string, m: nat, ext: string)
    requires 1 <= m <= |filename| && |ext| == m - 1 && '.' !in ext
    requires Lower(filename[|filename| - m..]) == ['.'] + ext
    ensures '.' in filename && LastDot(filename) == |filename| - m
    ensures Lower(filename[|filename| - m + 1..]) == ext
  {
    var n := |filename|;
    var tail := filename[n - m..];
    assert Lower(tail)[0] == '.';
    LowerCharDot(tail[0]);
    assert filename[n - m] == tail[0] == '.';
    forall k | n - m < k < n
      ensures filename[k] != '.'
    {
      var j := k - (n - m);
      assert filename[k] == tail[j];
      assert Lower(tail)[j] == ext[j - 1];
      assert ext[j - 1] in ext;
      LowerCharDot(tail[j]);
    }
    var d := LastDot(filename);
    assert d >= n - m;
    var rest := filename[n - m + 1..];
    assert |Lower(rest)| == |ext|;
    forall j | 0 <= j < |ext|
      ensures Lower(rest)[j] == ext[j]
    {
      assert rest[j] == tail[j + 1];
      assert Lower(tail)[j + 1] == ext[j];
    }
  }

  /** Lower-casing a dot followed by ext. */
  lemma LowerDotThen(tail: string, ext: string)
    requires tail == ['.'] + ext
    ensures Lower(tail) == ['.'] + Lower(ext)
  {
    assert Lower(tail)[0] == '.';
    forall j | 0 <= j < |ext|
      ensures Lower(tail)[j + 1] == Lower(ext)[j]
    {
      assert tail[j + 1] == ext[j];
    }
  }

  /** An accepted name ends, ignoring case, in ".csv" or ".xlsx". */
  lemma AllowedFileHasSuffix(filename: string)
    requires AllowedFile(filename)
    ensures (|filename| >= 4 && Lower(filename[|filename| - 4..]) == ".csv")
      || (|filename| >= 5 && Lower(filename[|filename| - 5..]) == ".xlsx")
  {
    var n := |filename|;
    var k :| 0 <= k < n && filename[k] == '.';
    var d := LastDot(filename);
    assert d >= k;
    var ext := filename[d + 1..];
    LowerDotThen(filename[d..], ext);
    if Lower(ext) == "csv" {
      assert d == n - 4;
      assert Lower(filename[n - 4..]) == ['.'] + "csv";
    } else {
      assert d == n - 5;
      assert Lower(filename[n - 5..]) == ['.'] + "xlsx";
    }
  }

  /** A name ending, ignoring case, in ".csv" or ".xlsx" is accepted. */
  lemma SuffixIsAllowed(filename: string)
    requires (|filename| >= 4 && Lower(filename[|filename| - 4..]) == ".csv")
      || (|filename| >= 5 && Lower(filename[|filename| - 5..]) == ".xlsx")
    ensures AllowedFile(filename)
  {
    var n := |filename|;
    if n >= 4 && Lower(filename[n - 4..]) == ".csv" {
      assert ".csv" == ['.'] + "csv";
      SuffixDot(filename, 4, "csv");
    } else {
      assert ".xlsx" == ['.'] + "xlsx";
      SuffixDot(filename, 5, "xlsx");
    }
  }

  /** A file is accepted exactly when its name ends, ignoring case, in
      ".csv" or ".xlsx": the text after the last dot is the extension. */
  lemma AllowedFileBySuffix(filename: string)
    ensures AllowedFile(filename) <==>
      (|filename| >= 4 && Lower(filename[|filename| - 4..]) == ".csv")
      || (|filename| >= 5 && Lower(filename[|filename| - 5..]) == ".xlsx")
  {
    if AllowedFile(filename) {
      AllowedFileHasSuffix(filename);
    }
    if (|filename| >= 4 && Lower(filename[|filename| - 4..]) == ".csv")
      || (|filename| >= 5 && Lower(filename[|filename| - 5..]) == ".xlsx")
    {
      SuffixIsAllowed(filename);
    }
  }
}
