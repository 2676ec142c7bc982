/**
 * The string functions of FileUtility. A Java `null` string is `None`;
 * `File.separator` is the parameter `sep`, and whether a path names an
 * existing directory is the parameter `isDirectory`.
 */
module FileUtility {

  datatype Option<T> = None | Some(value: T)

  /** String.lastIndexOf for one character: the last index of `c`, or -1. */
  function LastIndexOf(s: string, c: char): (r: int)
    ensures -1 <= r < |s|
    ensures r == -1 <==> c !in s
    ensures r >= 0 ==> s[r] == c && c !in s[r + 1..]
  {
    if |s| == 0 then -1
    else if s[|s| - 1] == c then |s| - 1
    else
      var r := LastIndexOf(s[..|s| - 1], c);
      assert s[r + 1..] == s[..|s| - 1][r + 1..] + [s[|s| - 1]];
      r
  }

  /**
   * getFileFormat: the text after the last '.', or null when the name is null
   * or its last '.' is missing or the first character.
   */
  function GetFileFormat(filename: Option<string>): (r: Option<string>)
    ensures filename.None? ==> r.None?
    ensures r.Some? ==> filename.Some? && '.' !in r.value
    ensures r.Some? ==> var n := filename.value;
      |r.value| + 1 < |n| && n[|n| - |r.value| - 1] == '.' && n[|n| - |r.value|..] == r.value
    ensures r.None? && filename.Some? ==> var n := filename.value;
      '.' !in n || (n[0] == '.' && '.' !in n[1..])
  {
    match filename
    case None => None
    case Some(n) =>
      var beginIndex := LastIndexOf(n, '.');
      if beginIndex > 0 then Some(n[beginIndex + 1..]) else None
  }

  /** getFileNameWithoutFormat: the name before its last '.', or the whole name if it has none. */
  function GetFileNameWithoutFormat(name: string): (r: string)
    ensures '.' !in name ==> r == name
    ensures '.' in name ==> |r| < |name| && name[..|r|] == r && name[|r|] == '.' && '.' !in name[|r| + 1..]
  {
    var idx := LastIndexOf(name, '.');
    if idx < 0 then name else name[..idx]
  }

  /** getFileName: the path after its last separator, or the whole path if it has none. */
  function GetFileName(path: string, sep: char): (r: string)
    ensures sep !in r
    ensures sep !in path ==> r == path
    ensures sep in path ==> |r| < |path| && path[|path| - |r| - 1] == sep && path[|path| - |r|..] == r
  {
    var slInd := LastIndexOf(path, sep);
    if slInd != -1 then path[slInd + 1..] else path
  }

  /**
   * getDirectory: null for null, the path itself for a directory, otherwise the
   * text before the last separator when that separator is not the first
   * character, and "" when it is or there is none.
   */
  function GetDirectory(filename: Option<string>, isDirectory: bool, sep: char): (r: Option<string>)
    ensures filename.None? <==> r.None?
    ensures filename.Some? && isDirectory ==> r == filename
    ensures filename.Some? && !isDirectory && r.value != "" ==> var n := filename.value;
      |r.value| < |n| && n[..|r.value|] == r.value && n[|r.value|] == sep && sep !in n[|r.value| + 1..]
    ensures filename.Some? && !isDirectory && r.value == "" ==> var n := filename.value;
      sep !in n || (n[0] == sep && sep !in n[1..])
  {
    match filename
    case None => None
    case Some(n) =>
      if isDirectory then Some(n)
      else
        var endIndex := LastIndexOf(n, sep);
        if endIndex > 0 then Some(n[..endIndex]) else Some("")
  }

  /** A name whose last '.' is not its first character splits into name, '.', format. */
  lemma FormatSplit(name: string)
    requires LastIndexOf(name, '.') > 0
    ensures GetFileFormat(Some(name)).Some?
    ensures GetFileNameWithoutFormat(name) + "." + GetFileFormat(Some(name)).value == name
  {
    var i := LastIndexOf(name, '.');
    assert GetFileNameWithoutFormat(name) == name[..i];
    assert GetFileFormat(Some(name)).value == name[i + 1..];
    SplitAt(name, i);
  }

  /** A file path whose last separator is not its first character splits into directory, separator, file name. */
  lemma DirectorySplit(path: string, sep: char)
    requires LastIndexOf(path, sep) > 0
    ensures GetDirectory(Some(path), false, sep).Some?
    ensures GetDirectory(Some(path), false, sep).value + [sep] + GetFileName(path, sep) == path
  {
    var i := LastIndexOf(path, sep);
    assert GetDirectory(Some(path), false, sep).value == path[..i];
    assert GetFileName(path, sep) == path[i + 1..];
    SplitAt(path, i);
  }

  /** A string is its text before index `i`, the character at `i` and its text after. */
  lemma SplitAt(s: string, i: int)
    requires 0 <= i < |s|
    ensures s[..i] + [s[i]] + s[i + 1..] == s
  {
    assert s[..i] + [s[i]] + s[i + 1..] == s[..i] + s[i..];
  }
}
