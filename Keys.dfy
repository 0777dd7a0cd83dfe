/** Object-key helpers of the converter: Python's `str.split` on a single
    separator character, the positional JPEG check `is_jpg` and the base-name
    derivation `get_file_name`. Everything here is pure. */
module Keys {
  import Sequences

  // ---------------------------------------------------------------------
  // Python's `s.split(sep)` and the reference definitions it is proved
  // against
  // ---------------------------------------------------------------------

  /** Python's `s.split(sep)` for a one-character separator: the pieces
      between consecutive separators, in order, empty pieces included.
      There is always at least one piece and no piece holds a separator. */
  function Split(s: string, sep: char): (pieces: seq<string>)
    ensures |pieces| >= 1
    ensures forall i :: 0 <= i < |pieces| ==> sep !in pieces[i]
    decreases |s|
  {
    if |s| == 0 then [""]
    else if s[0] == sep then [""] + Split(s[1..], sep)
    else
      var rest := Split(s[1..], sep);
      [[s[0]] + rest[0]] + rest[1..]
  }

  /** Python's `sep.join(pieces)`: the inverse of `Split`. */
  function Join(pieces: seq<string>, sep: char): string
    decreases |pieces|
  {
    if |pieces| == 0 then ""
    else if |pieces| == 1 then pieces[0]
    else pieces[0] + [sep] + Join(pieces[1..], sep)
  }

  /** The part of `s` before its first `c`; all of `s` when `c` does not
      occur. */
  function Before(s: string, c: char): (r: string)
    ensures c !in r
    ensures r <= s
    ensures |r| < |s| <==> c in s
    ensures |r| < |s| ==> s[|r|] == c
    decreases |s|
  {
    if |s| == 0 || s[0] == c then "" else [s[0]] + Before(s[1..], c)
  }

  /** The part of `s` after its first `c`. */
  function After(s: string, c: char): (r: string)
    requires c in s
    ensures s == Before(s, c) + [c] + r
    decreases |s|
  {
    if s[0] == c then s[1..] else After(s[1..], c)
  }

  /** The part of `s` after its last `c`; all of `s` when `c` does not
      occur. */
  function AfterLast(s: string, c: char): (r: string)
    ensures c !in r
    ensures |r| <= |s| && r == s[|s| - |r|..]
    ensures |r| < |s| <==> c in s
    ensures |r| < |s| ==> s[|s| - |r| - 1] == c
    decreases |s|
  {
    if |s| == 0 then ""
    else if c in s[1..] then AfterLast(s[1..], c)
    else if s[0] == c then s[1..]
    else s
  }

  lemma {:induction false} JoinSplit(s: string, sep: char)
    ensures Join(Split(s, sep), sep) == s
    decreases |s|
  {
    if |s| > 0 {
      var rest := Split(s[1..], sep);
      JoinSplit(s[1..], sep);
      if s[0] == sep {
        assert ([""] + rest)[1..] == rest;
      } else if |rest| > 1 {
        var pieces := [[s[0]] + rest[0]] + rest[1..];
        assert pieces[1..] == rest[1..];
      }
    }
  }

  lemma {:induction false} SplitSingleIff(s: string, sep: char)
    ensures |Split(s, sep)| == 1 <==> sep !in s
    decreases |s|
  {
    if |s| > 0 {
      SplitSingleIff(s[1..], sep);
      assert s == [s[0]] + s[1..];
    }
  }

  lemma SplitNoSeparator(s: string, sep: char)
    requires sep !in s
    ensures Split(s, sep) == [s]
  {
    SplitSingleIff(s, sep);
    JoinSplit(s, sep);
  }

  lemma {:induction false} SplitFirst(s: string, sep: char)
    ensures Split(s, sep)[0] == Before(s, sep)
    decreases |s|
  {
    if |s| > 0 && s[0] != sep {
      SplitFirst(s[1..], sep);
    }
  }

  /** Splitting strips the first piece and splits what follows the first
      separator. */
  lemma {:induction false} SplitAfterFirst(s: string, sep: char)
    requires sep in s
    ensures Split(s, sep) == [Before(s, sep)] + Split(After(s, sep), sep)
    decreases |s|
  {
    if s[0] != sep {
      SplitAfterFirst(s[1..], sep);
    }
  }

  lemma {:induction false} SplitLast(s: string, sep: char)
    ensures Split(s, sep)[|Split(s, sep)| - 1] == AfterLast(s, sep)
    decreases |s|
  {
    if |s| > 0 {
      var rest := Split(s[1..], sep);
      SplitLast(s[1..], sep);
      SplitSingleIff(s[1..], sep);
      if sep !in s[1..] {
        SplitNoSeparator(s[1..], sep);
      }
    }
  }

  /** A separator between `a` and `b` splits them apart. */
  lemma {:induction false} SplitConcat(a: string, b: string, sep: char)
    ensures Split(a + [sep] + b, sep) == Split(a, sep) + Split(b, sep)
    decreases |a|
  {
    if |a| == 0 {
      Sequences.SeparatorThen(a, sep, b);
    } else {
      Sequences.FirstThen(a, sep, b);
      SplitConcat(a[1..], b, sep);
      var st, sb := Split(a[1..], sep), Split(b, sep);
      if a[0] == sep {
        Sequences.Associative([""], st, sb);
      } else {
        Sequences.DropFirst(st, sb);
        Sequences.Associative([[a[0]] + st[0]], st[1..], sb);
      }
    }
  }

  /** The piece after the first separator of `a + [c] + b`, for `a` free of
      `c`, is `b`. */
  lemma {:induction false} AfterConcat(a: string, b: string, c: char)
    requires c !in a
    ensures c in a + [c] + b
    ensures After(a + [c] + b, c) == b
    decreases |a|
  {
    assert (a + [c] + b)[|a|] == c;
    if |a| == 0 {
      Sequences.SeparatorThen(a, c, b);
    } else {
      Sequences.FirstThen(a, c, b);
      AfterConcat(a[1..], b, c);
    }
  }

  // ---------------------------------------------------------------------
  // is_jpg (handler.py:16-19)
  // ---------------------------------------------------------------------

  const JpgFormat: string := "jpg"

  /** `is_jpg(key)`: the piece at index 1 of `key.split('.')` equals "jpg".
      Python raises an IndexError when the key holds no `.`, so there is no
      piece 1. */
  function IsJpg(key: string): bool
    requires '.' in key
  {
    SplitSingleIff(key, '.');
    Split(key, '.')[1] == JpgFormat
  }

  /** What `is_jpg` accepts: the text between the first and the second `.`
      of the key (or the end of the key) is "jpg", exactly and
      case-sensitively. */
  lemma IsJpgIff(key: string)
    requires '.' in key
    ensures IsJpg(key) <==> Before(After(key, '.'), '.') == JpgFormat
  {
    SplitAfterFirst(key, '.');
    SplitFirst(After(key, '.'), '.');
  }

  /** `Before` stops at the first separator it meets. */
  lemma {:induction false} BeforeConcat(a: string, b: string, c: char)
    requires c !in a
    requires b == "" || b[0] == c
    ensures Before(a + b, c) == a
    decreases |a|
  {
    if |a| == 0 {
      assert a + b == b;
    } else {
      Sequences.DropFirst(a, b);
      BeforeConcat(a[1..], b, c);
    }
  }

  /** Which keys are accepted: with the key cut into a stem before its first
      `.`, the next piece and the remainder (empty or starting with `.`), the
      key is accepted exactly when that piece is "jpg". The stem may hold
      anything but `.`, slashes included. */
  lemma IsJpgOfPieces(stem: string, piece: string, rest: string)
    requires '.' !in stem && '.' !in piece
    requires rest == "" || rest[0] == '.'
    ensures '.' in stem + "." + piece + rest
    ensures IsJpg(stem + "." + piece + rest) <==> piece == JpgFormat
  {
    var key := stem + "." + piece + rest;
    assert key == stem + ['.'] + (piece + rest);
    AfterConcat(stem, piece + rest, '.');
    BeforeConcat(piece, rest, '.');
    IsJpgIff(key);
  }

  /** A key under directories is accepted. */
  lemma IsJpgAcceptsPath()
    ensures IsJpg("a/b/c.jpg")
  {
    IsJpgOfPieces("a/b/c", "jpg", "");
    assert "a/b/c" + "." + "jpg" + "" == "a/b/c.jpg";
  }

  /** A key whose ".jpg" is followed by a further extension is accepted. */
  lemma IsJpgAcceptsLaterExtension()
    ensures IsJpg("c.jpg.png")
  {
    IsJpgOfPieces("c", "jpg", ".png");
    assert "c" + "." + "jpg" + ".png" == "c.jpg.png";
  }

  /** A second dot in the file name shifts piece 1: rejected. */
  lemma IsJpgRejectsDotInName()
    ensures !IsJpg("my.photo.jpg")
  {
    IsJpgOfPieces("my", "photo", ".jpg");
    assert "my" + "." + "photo" + ".jpg" == "my.photo.jpg";
  }

  /** A dot in a directory name shifts piece 1: rejected. */
  lemma IsJpgRejectsDotInDirectory()
    ensures !IsJpg("d.x/c.jpg")
  {
    IsJpgOfPieces("d", "x/c", ".jpg");
    assert "d" + "." + "x/c" + ".jpg" == "d.x/c.jpg";
  }

  /** The comparison is case-sensitive: rejected. */
  lemma IsJpgRejectsUpperCase()
    ensures !IsJpg("c.JPG")
  {
    IsJpgOfPieces("c", "JPG", "");
    assert "c" + "." + "JPG" + "" == "c.JPG";
  }

  /** `photos/sunset.jpg` is a JPEG key whose file name is `sunset`. */
  lemma SunsetJpegKey()
    ensures '.' in "photos/sunset.jpg" && IsJpg("photos/sunset.jpg")
    ensures GetFileName("photos/sunset.jpg") == "sunset"
  {
    IsJpgOfPieces("photos/sunset", "jpg", "");
    assert "photos/sunset" + "." + "jpg" + "" == "photos/sunset.jpg";
    GetFileNameOfPath("photos", "sunset", "jpg");
    assert "photos" + "/" + "sunset" + "." + "jpg" == "photos/sunset.jpg";
  }

  /** Another format: rejected. */
  lemma IsJpgRejectsGif()
    ensures !IsJpg("photos/sunset.gif")
  {
    IsJpgOfPieces("photos/sunset", "gif", "");
    assert "photos/sunset" + "." + "gif" + "" == "photos/sunset.gif";
  }

  // ---------------------------------------------------------------------
  // get_file_name (handler.py:22-26)
  // ---------------------------------------------------------------------

  /** `get_file_name(key)`: the first `.`-piece of the last `/`-piece of
      the key. Total. */
  function GetFileName(key: string): string {
    var segments := Split(key, '/');
    var nameAndFormat := segments[|segments| - 1];
    Split(nameAndFormat, '.')[0]
  }

  /** The base name is the last `/`-segment of the key (the whole key when
      it has no `/`), up to its first `.`: it holds neither `/` nor `.`. */
  lemma GetFileNameIff(key: string)
    ensures GetFileName(key) == Before(AfterLast(key, '/'), '.')
    ensures '/' !in GetFileName(key) && '.' !in GetFileName(key)
    ensures GetFileName(key) <= AfterLast(key, '/')
  {
    var last := AfterLast(key, '/');
    SplitLast(key, '/');
    GetFileNameOfLast(key, last);
    SplitFirst(last, '.');
    Sequences.PrefixAvoids(Before(last, '.'), last, '/');
  }

  lemma GetFileNameOfLast(key: string, last: string)
    requires Split(key, '/')[|Split(key, '/')| - 1] == last
    ensures GetFileName(key) == Split(last, '.')[0]
  {
  }

  /** The base name of `dir/name.ext` is `name`, when the name holds neither
      `.` nor `/` and the extension holds no `/`. */
  lemma GetFileNameOfPath(dir: string, name: string, ext: string)
    requires '.' !in name && '/' !in name && '/' !in ext
    ensures GetFileName(dir + "/" + name + "." + ext) == name
  {
    var file := name + "." + ext;
    assert dir + "/" + name + "." + ext == dir + ['/'] + file;
    SplitConcat(dir, file, '/');
    assert '/' !in file;
    SplitNoSeparator(file, '/');
    SplitConcat(name, ext, '.');
    SplitNoSeparator(name, '.');
  }

  /** A name without `.` followed by another extension is rejected. */
  lemma IsJpgRejectsOtherExtension(name: string, ext: string)
    requires '.' !in name && '.' !in ext && ext != JpgFormat
    ensures '.' in name + "." + ext && !IsJpg(name + "." + ext)
  {
    IsJpgOfPieces(name, ext, "");
    assert name + "." + ext + "" == name + "." + ext;
  }

  /** A JPEG key is never its own base name with another extension. */
  lemma KeyIsNotRenamed(key: string, ext: string)
    requires '.' in key && IsJpg(key)
    requires '.' !in ext && ext != JpgFormat
    ensures key != GetFileName(key) + "." + ext
  {
    GetFileNameIff(key);
    IsJpgRejectsOtherExtension(GetFileName(key), ext);
  }

  /** A JPEG key is never one of the keys derived from it: `<name>.png`
      and `<name>.gif` have a piece 1 other than "jpg". */
  lemma KeyIsNoDestination(key: string)
    requires '.' in key && IsJpg(key)
    ensures key != GetFileName(key) + ".png" && key != GetFileName(key) + ".gif"
  {
    var name := GetFileName(key);
    KeyIsNotRenamed(key, "png");
    assert name + "." + "png" == name + ".png";
    KeyIsNotRenamed(key, "gif");
    assert name + "." + "gif" == name + ".gif";
  }

  /** A key with no `/` is one segment: the base name of `name.ext` is
      `name`. */
  lemma GetFileNameWithoutDirectory(name: string, ext: string)
    requires '.' !in name && '/' !in name && '/' !in ext
    ensures GetFileName(name + "." + ext) == name
  {
    var file := name + "." + ext;
    assert '/' !in file;
    SplitNoSeparator(file, '/');
    assert file == name + ['.'] + ext;
    SplitConcat(name, ext, '.');
    SplitNoSeparator(name, '.');
  }
}
