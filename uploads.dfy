/**
 * The file-name check applied to uploaded and profile pictures
 * (`allowed_file` and `ALLOWED_EXTENSIONS` in backend/app.py).
 */
module Uploads {
  import opened Wrappers

  /** The picture extensions the backend accepts, all lower-case. */
  const AllowedExtensions: set<string> := {"png", "jpg", "jpeg", "gif"}

  /** Lower-cases one character; only the ASCII letters A-Z change. */
  function LowerChar(c: char): (d: char)
    ensures !('A' <= d <= 'Z')
    ensures d == '.' <==> c == '.'
    ensures 'a' <= d <= 'z' <==> ('a' <= c <= 'z' || 'A' <= c <= 'Z')
  {
    if 'A' <= c <= 'Z' then (c as int + 32) as char else c
  }

  /** Lower-cases a string character by character: the ASCII part of Python's `str.lower`. */
  function Lower(s: string): (r: string)
    ensures |r| == |s|
    ensures forall i :: 0 <= i < |r| ==> !('A' <= r[i] <= 'Z')
    ensures forall i :: 0 <= i < |r| ==> (r[i] == '.' <==> s[i] == '.')
  {
    seq(|s|, i requires 0 <= i < |s| => LowerChar(s[i]))
  }

  /** Lower-casing twice changes nothing more. */
  lemma LowerIdempotent(s: string)
    ensures Lower(Lower(s)) == Lower(s)
  {
    var r := Lower(s);
    forall i | 0 <= i < |r| ensures Lower(r)[i] == r[i] {
      assert !('A' <= r[i] <= 'Z');
    }
  }

  /** The position of the last occurrence of `c` in `s`, if any. */
  function LastIndexOf(s: string, c: char): (r: Option<nat>)
    ensures r.None? <==> c !in s
    ensures r.Some? ==> r.value < |s| && s[r.value] == c
    ensures r.Some? ==> forall j :: r.value < j < |s| ==> s[j] != c
  {
    if |s| == 0 then None
    else if s[|s| - 1] == c then Some(|s| - 1)
    else LastIndexOf(s[..|s| - 1], c)
  }

  /**
   * Python's `s.rsplit(sep, 1)`: the whole string when `sep` does not occur,
   * otherwise the text before and the text after the last `sep`.
   */
  function RSplitOnce(s: string, sep: char): (parts: seq<string>)
    ensures sep !in s ==> parts == [s]
    ensures sep in s ==> |parts| == 2 && s == parts[0] + [sep] + parts[1] && sep !in parts[1]
  {
    match LastIndexOf(s, sep)
    case None => [s]
    case Some(i) =>
      assert s == s[..i] + [sep] + s[i + 1..];
      [s[..i], s[i + 1..]]
  }

  /** `allowed_file`: the name has a dot and its last extension, lower-cased, is accepted. */
  predicate AllowedFile(filename: string): (ok: bool)
    ensures ok ==> '.' in filename && 4 <= |filename|
  {
    '.' in filename && Lower(RSplitOnce(filename, '.')[1]) in AllowedExtensions
  }

  /** A name without a dot is always rejected. */
  lemma NoDotRejected(filename: string)
    requires '.' !in filename
    ensures !AllowedFile(filename)
  {
  }

  /** Splitting `stem + "." + ext` at its last dot gives back `stem` and `ext` when `ext` has no dot. */
  lemma RSplitOnceAtLastDot(stem: string, ext: string)
    requires '.' !in ext
    ensures RSplitOnce(stem + "." + ext, '.') == [stem, ext]
  {
    var s := stem + "." + ext;
    assert s[|stem|] == '.';
    var i := LastIndexOf(s, '.');
    assert i.Some? && i.value == |stem|;
    assert s[..|stem|] == stem;
    assert s[|stem| + 1..] == ext;
  }

  /**
   * Only the text after the last dot decides: `stem + "." + ext` is accepted
   * exactly when the lower-cased `ext` is an accepted extension, whatever `stem` holds.
   */
  lemma LastExtensionDecides(stem: string, ext: string)
    requires '.' !in ext
    ensures AllowedFile(stem + "." + ext) <==> Lower(ext) in AllowedExtensions
  {
    RSplitOnceAtLastDot(stem, ext);
  }

  /** A name that ends in a dot has an empty extension and is rejected. */
  lemma EmptyExtensionRejected(stem: string)
    ensures !AllowedFile(stem + ".")
  {
    LastExtensionDecides(stem, "");
    assert Lower("") == "";
  }

  /** Lower-casing keeps every dot where it was and adds none. */
  lemma LowerKeepsDots(a: string, b: string)
    requires Lower(a) == Lower(b)
    ensures |a| == |b|
    ensures forall j :: 0 <= j < |a| ==> (a[j] == '.' <==> b[j] == '.')
  {
    forall j | 0 <= j < |a| ensures a[j] == '.' <==> b[j] == '.' {
      assert Lower(a)[j] == Lower(b)[j];
    }
  }

  /** Lower-casing commutes with taking a suffix. */
  lemma LowerSuffix(s: string, i: nat)
    requires i <= |s|
    ensures Lower(s[i..]) == Lower(s)[i..]
  {
  }

  /** Names with no dot, whatever their case, are rejected alike. */
  lemma CaseInsensitiveNoDot(a: string, b: string)
    requires Lower(a) == Lower(b) && '.' !in a
    ensures !AllowedFile(a) && !AllowedFile(b)
  {
    LowerKeepsDots(a, b);
    assert '.' !in b by {
      forall k | 0 <= k < |b| ensures b[k] != '.' {
        assert a[k] != '.';
      }
    }
  }

  /** Two names that lower-case alike have their last dot at the same place. */
  lemma CaseInsensitiveSplit(a: string, b: string, i: nat)
    requires Lower(a) == Lower(b)
    requires i < |a| && a[i] == '.' && '.' !in a[i + 1..]
    ensures |b| == |a| && b[i] == '.' && '.' !in b[i + 1..]
    ensures Lower(a[i + 1..]) == Lower(b[i + 1..])
  {
    LowerKeepsDots(a, b);
    forall k | i + 1 <= k < |b| ensures b[k] != '.' {
      assert a[k] == a[i + 1..][k - i - 1];
    }
    LowerSuffix(a, i + 1);
    LowerSuffix(b, i + 1);
  }

  /** The check ignores letter case: two names that lower-case alike are accepted alike. */
  lemma CaseInsensitive(a: string, b: string)
    requires Lower(a) == Lower(b)
    ensures AllowedFile(a) <==> AllowedFile(b)
  {
    if '.' in a {
      var i := LastIndexOf(a, '.').value;
      assert '.' !in a[i + 1..];
      CaseInsensitiveSplit(a, b, i);
      assert a == a[..i] + "." + a[i + 1..];
      assert b == b[..i] + "." + b[i + 1..];
      LastExtensionDecides(a[..i], a[i + 1..]);
      LastExtensionDecides(b[..i], b[i + 1..]);
    } else {
      CaseInsensitiveNoDot(a, b);
    }
  }

  /** The accepted extensions are exactly png, jpg, jpeg and gif, in any letter case. */
  lemma AcceptedExtensionsAre(stem: string, ext: string)
    requires '.' !in ext
    ensures AllowedFile(stem + "." + ext) <==> Lower(ext) == "png" || Lower(ext) == "jpg" || Lower(ext) == "jpeg" || Lower(ext) == "gif"
  {
    LastExtensionDecides(stem, ext);
  }

  /** Only the last extension counts: `a.tar.png` is accepted. */
  lemma InnerDotIgnored()
    ensures AllowedFile("a.tar.png")
  {
    assert "a.tar.png" == "a.tar" + "." + "png";
    LastExtensionDecides("a.tar", "png");
    assert Lower("png") == "png";
  }

  /** Only the last extension counts: `a.png.exe` is rejected. */
  lemma EarlierExtensionIgnored()
    ensures !AllowedFile("a.png.exe")
  {
    assert "a.png.exe" == "a.png" + "." + "exe";
    LastExtensionDecides("a.png", "exe");
    assert Lower("exe") == "exe";
  }

  /** Letter case is ignored: `IMG.PNG` is accepted. */
  lemma UpperCaseAccepted()
    ensures AllowedFile("IMG.PNG")
  {
    assert "IMG.PNG" == "IMG" + "." + "PNG";
    LastExtensionDecides("IMG", "PNG");
    assert Lower("PNG") == [LowerChar('P'), LowerChar('N'), LowerChar('G')] == "png";
  }

  /** Letter case is ignored: `x.JpEg` is accepted. */
  lemma MixedCaseAccepted()
    ensures AllowedFile("x.JpEg")
  {
    assert "x.JpEg" == "x" + "." + "JpEg";
    LastExtensionDecides("x", "JpEg");
    assert Lower("JpEg") == [LowerChar('J'), LowerChar('p'), LowerChar('E'), LowerChar('g')] == "jpeg";
  }
}
