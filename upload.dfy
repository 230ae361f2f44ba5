/**
 * The admin upload's file-name check: a name is accepted when the text after its
 * last dot, lower-cased, is one of the image extensions.
 */
module Upload {

  const AllowedExtensions: set<string> := {"png", "jpg", "jpeg", "gif", "webp"}

  /** Lower-case an ASCII capital; every other character is kept. */
  function LowerChar(c: char): (r: char)
    ensures 'A' <= c <= 'Z' ==> 'a' <= r <= 'z' && r as int == c as int + 32
    ensures !('A' <= c <= 'Z') ==> r == c
  {
    if 'A' <= c <= 'Z' then ((c as int) + 32) as char else c
  }

  /** Lower-casing character by character: Python's `str.lower` restricted to ASCII letters. */
  function Lower(s: string): (r: string)
    ensures |r| == |s|
  {
    if s == [] then [] else [LowerChar(s[0])] + Lower(s[1..])
  }

  /** Each character is lower-cased in place. */
  lemma {:induction false} LowerAt(s: string)
    ensures forall k :: 0 <= k < |s| ==> Lower(s)[k] == LowerChar(s[k])
  {
    if s != [] {
      LowerAt(s[1..]);
    }
  }

  lemma {:induction false} LowerAppend(a: string, b: string)
    ensures Lower(a + b) == Lower(a) + Lower(b)
  {
    if a == [] {
      assert a + b == b;
    } else {
      assert (a + b)[1..] == a[1..] + b;
      LowerAppend(a[1..], b);
    }
  }

  /** Lower-casing twice is lower-casing once, and it never creates or removes a dot. */
  lemma LowerTwice(s: string)
    ensures Lower(Lower(s)) == Lower(s)
    ensures forall k :: 0 <= k < |s| ==> (Lower(s)[k] == '.' <==> s[k] == '.')
  {
    var once := Lower(s);
    LowerAt(s);
    LowerAt(once);
    forall k | 0 <= k < |s| ensures Lower(once)[k] == once[k] && (once[k] == '.' <==> s[k] == '.') {
      LowerCharTwice(s[k]);
    }
  }

  lemma LowerCharTwice(c: char)
    ensures LowerChar(LowerChar(c)) == LowerChar(c)
    ensures LowerChar(c) == '.' <==> c == '.'
  {
  }

  /** The part after the last dot: what splitting once from the right at a dot leaves on the right. */
  function Extension(f: string): (ext: string)
    requires '.' in f
    ensures |ext| < |f| && f[|f| - |ext| - 1] == '.'
    ensures ext == f[|f| - |ext|..]
    ensures '.' !in ext
    decreases |f|
  {
    var last := f[|f| - 1];
    if last == '.' then ""
    else
      assert f == f[..|f| - 1] + [last];
      Extension(f[..|f| - 1]) + [last]
  }

  /** `allowed_file`: there is a dot, and the lower-cased extension is an allowed one. */
  function AllowedFile(f: string): (ok: bool)
    ensures '.' !in f ==> !ok
  {
    '.' in f && Lower(Extension(f)) in AllowedExtensions
  }

  /** Whatever stands before the last dot, the extension is exactly the text after it. */
  lemma {:induction false} ExtensionAfterLastDot(stem: string, ext: string)
    requires '.' !in ext
    ensures '.' in stem + "." + ext
    ensures Extension(stem + "." + ext) == ext
    decreases |ext|
  {
    var f := stem + "." + ext;
    assert f[|stem|] == '.';
    if ext != [] {
      var front := ext[..|ext| - 1];
      assert f[..|f| - 1] == stem + "." + front;
      assert f[|f| - 1] == ext[|ext| - 1];
      ExtensionAfterLastDot(stem, front);
      assert ext == front + [ext[|ext| - 1]];
    }
  }

  /** A dotted name is accepted exactly when the text after its last dot is an allowed extension in any case. */
  lemma AllowedFileLastDot(stem: string, ext: string)
    requires '.' !in ext
    ensures AllowedFile(stem + "." + ext) <==> Lower(ext) in AllowedExtensions
  {
    ExtensionAfterLastDot(stem, ext);
  }

  /** `i` is the position of a dot with no dot after it, followed by an allowed extension in any case. */
  predicate AcceptedAt(f: string, i: int) {
    0 <= i < |f| && f[i] == '.' && '.' !in f[i + 1..] && Lower(f[i + 1..]) in AllowedExtensions
  }

  /**
   * The meaning of `allowed_file` in full: some dot is followed by dot-free text
   * whose lower-case form is an allowed extension.
   */
  lemma AllowedFileMeaning(f: string)
    ensures AllowedFile(f) <==> exists i :: AcceptedAt(f, i)
  {
    if AllowedFile(f) {
      AllowedFileWitness(f);
    }
    if exists i :: AcceptedAt(f, i) {
      var i :| AcceptedAt(f, i);
      AcceptedAtAllowed(f, i);
    }
  }

  lemma AllowedFileWitness(f: string)
    requires AllowedFile(f)
    ensures AcceptedAt(f, |f| - |Extension(f)| - 1)
  {
  }

  lemma AcceptedAtAllowed(f: string, i: int)
    requires AcceptedAt(f, i)
    ensures AllowedFile(f)
  {
    assert f == f[..i] + "." + f[i + 1..];
    AllowedFileLastDot(f[..i], f[i + 1..]);
  }

  /** A name ending in a dot has an empty extension and is refused. */
  lemma TrailingDotRejected(stem: string)
    ensures !AllowedFile(stem + ".")
  {
    ExtensionAfterLastDot(stem, "");
    assert stem + "." + "" == stem + ".";
  }

  /** The check ignores case: a name and its lower-case form get the same answer. */
  lemma LowerKeepsVerdict(f: string)
    ensures AllowedFile(Lower(f)) == AllowedFile(f)
  {
    var g := Lower(f);
    assert ('.' in g) == ('.' in f) by {
      LowerTwice(f);
      if '.' in f {
        var k :| 0 <= k < |f| && f[k] == '.';
        assert g[k] == '.';
      }
      if '.' in g {
        var k :| 0 <= k < |g| && g[k] == '.';
        assert f[k] == '.';
      }
    }
    if '.' in f {
      var ext := Extension(f);
      var stem := f[..|f| - |ext| - 1];
      assert f == stem + "." + ext by {
        SplitAtDot(f, |f| - |ext| - 1);
      }
      assert Extension(g) == Lower(ext) by {
        LowerNoDot(ext);
        LowerSplit(stem, ext);
        ExtensionAfterLastDot(Lower(stem), Lower(ext));
      }
      LowerTwice(ext);
    }
  }

  lemma SplitAtDot(f: string, i: nat)
    requires i < |f| && f[i] == '.'
    ensures f == f[..i] + "." + f[i + 1..]
  {
    assert f[..i + 1] == f[..i] + ".";
    assert f == f[..i + 1] + f[i + 1..];
  }

  /** Lower-casing never creates a dot. */
  lemma LowerNoDot(s: string)
    requires '.' !in s
    ensures '.' !in Lower(s)
  {
    LowerAt(s);
    forall k | 0 <= k < |s| ensures Lower(s)[k] != '.' {
      LowerCharTwice(s[k]);
    }
  }

  lemma LowerSingle(c: char)
    ensures Lower([c]) == [LowerChar(c)]
  {
    assert [c][1..] == [];
  }

  /** Lower-casing keeps a dot and lower-cases both sides of it. */
  lemma LowerSplit(before: string, after: string)
    ensures Lower(before + "." + after) == Lower(before) + "." + Lower(after)
  {
    LowerAppend(before + ".", after);
    LowerAppend(before, ".");
    LowerSingle('.');
  }

  /** Only the last extension counts: `a.tar.png` is accepted and `a.png.exe` is not. */
  lemma DoubleExtensions()
    ensures AllowedFile("a.tar.png")
    ensures !AllowedFile("a.png.exe")
  {
    LastPartPng();
    LastPartExe();
  }

  lemma LastPartPng()
    ensures AllowedFile("a.tar.png")
  {
    assert Lower("png") in AllowedExtensions by {
      assert Lower("png") == "png";
    }
    assert AllowedFile("a.tar" + "." + "png") <==> Lower("png") in AllowedExtensions by {
      AllowedFileLastDot("a.tar", "png");
    }
    assert "a.tar" + "." + "png" == "a.tar.png";
  }

  lemma LastPartExe()
    ensures !AllowedFile("a.png.exe")
  {
    assert Lower("exe") !in AllowedExtensions by {
      assert Lower("exe") == "exe";
    }
    assert AllowedFile("a.png" + "." + "exe") <==> Lower("exe") in AllowedExtensions by {
      AllowedFileLastDot("a.png", "exe");
    }
    assert "a.png" + "." + "exe" == "a.png.exe";
  }

  /** Capitals are accepted: `PHOTO.JPG`. */
  lemma CapitalExtension()
    ensures AllowedFile("PHOTO.JPG")
  {
    assert Lower("JPG") in AllowedExtensions by {
      assert Lower("JPG") == "jpg";
    }
    assert AllowedFile("PHOTO" + "." + "JPG") <==> Lower("JPG") in AllowedExtensions by {
      AllowedFileLastDot("PHOTO", "JPG");
    }
    assert "PHOTO" + "." + "JPG" == "PHOTO.JPG";
  }
}
