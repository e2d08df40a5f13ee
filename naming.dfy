/**
 * Naming the saved file (lines 110-118 of the script): an extension taken from the resolved
 * value with `os.path.splitext`, falling back to `.jpg`, and an ordinal filename.
 */
module Naming {
  import opened Text

  const FALLBACK_EXT := ".jpg"
  const FILE_PREFIX := "NOMBREDEARCHIVO_"
  const OF := "_de_"

  predicate EndsWith(s: string, suffix: string) {
    |suffix| <= |s| && s[|s| - |suffix|..] == suffix
  }

  /** Everything after the last `/`. */
  function Basename(p: string): string {
    p[LastIndexOf(p, '/') + 1..]
  }

  /** Every character of `s` is a dot. */
  predicate AllDots(s: string) {
    forall i :: 0 <= i < |s| ==> s[i] == '.'
  }

  /**
   * `os.path.splitext` on a POSIX path: the extension starts at the last `.` after the last
   * `/`, provided the part of the basename before that dot is not made of dots alone
   * (a leading dot, as in `.hidden`, does not start an extension).
   */
  function SplitExt(p: string): (r: (string, string))
    ensures r.0 + r.1 == p
    ensures r.1 == "" || (r.1[0] == '.' && '.' !in r.1[1..] && '/' !in r.1)
  {
    var b := Basename(p);
    var d := LastIndexOf(b, '.');
    var cut := |p| - |b| + d;
    if d > 0 && !AllDots(b[..d]) then
      BasenameTail(p);
      CutAtLastDot(p, b, d);
      (p[..cut], p[cut..])
    else (p, "")
  }

  /** The basename is a tail of the path with no `/` in it. */
  lemma BasenameTail(p: string)
    ensures |Basename(p)| <= |p| && p[|p| - |Basename(p)|..] == Basename(p)
    ensures '/' !in Basename(p)
  {
    var k := LastIndexOf(p, '/');
    assert |p| - |p[k + 1..]| == k + 1;
  }

  /** Cutting the path at the basename's last dot leaves that dot and no other after the cut. */
  lemma CutAtLastDot(p: string, b: string, d: int)
    requires |b| <= |p| && p[|p| - |b|..] == b && '/' !in b
    requires 0 <= d < |b| && b[d] == '.' && '.' !in b[d + 1..]
    ensures var cut := |p| - |b| + d;
      && p[cut..] == b[d..]
      && p[cut..][0] == '.' && '.' !in p[cut..][1..] && '/' !in p[cut..]
  {
    var cut := |p| - |b| + d;
    assert p[cut..] == b[d..];
    assert b[d..][1..] == b[d + 1..];
  }

  /**
   * The basename has an extension exactly when some dot in it comes after a character that
   * is not a dot.
   */
  lemma SplitExtFindsExtension(p: string)
    ensures SplitExt(p).1 != "" <==>
      var b := Basename(p);
      exists i, j :: 0 <= i < j < |b| && b[i] != '.' && b[j] == '.'
  {
    var b := Basename(p);
    var d := LastIndexOf(b, '.');
    if d > 0 && !AllDots(b[..d]) {
      var i :| 0 <= i < d && b[..d][i] != '.';
      assert b[i] != '.' && b[d] == '.';
    }
  }

  /** The extension the script gives a file: from the raw value, or `.jpg` when there is none. */
  function Extension(rawUrl: string): string {
    var (root, ext) := SplitExt(rawUrl);
    if ext == "" || Contains(rawUrl, INLINE_IMAGE) then FALLBACK_EXT else ext
  }

  /**
   * The extension always starts with a dot and is the tail of the raw value or `.jpg`; `.jpg`
   * is used for a value without an extension and for any value containing `data:image`.
   */
  lemma ExtensionRule(rawUrl: string)
    ensures var ext := Extension(rawUrl);
      |ext| > 0 && ext[0] == '.' &&
      (ext == FALLBACK_EXT || EndsWith(rawUrl, ext)) &&
      (Contains(rawUrl, INLINE_IMAGE) ==> ext == FALLBACK_EXT) &&
      (SplitExt(rawUrl).1 == "" ==> ext == FALLBACK_EXT) &&
      (!Contains(rawUrl, INLINE_IMAGE) && SplitExt(rawUrl).1 != "" ==> ext == SplitExt(rawUrl).1)
  {
    var (root, ext) := SplitExt(rawUrl);
    assert rawUrl == root + ext;
    assert rawUrl[|rawUrl| - |ext|..] == ext;
  }

  /** The name written for thumbnail `idx` of `total`: prefix, ordinal, `_de_`, total, extension. */
  function FileName(idx: nat, total: nat, ext: string): string {
    FILE_PREFIX + Decimal(idx) + OF + Decimal(total) + ext
  }

  /** The name starts with the prefix, the ordinal and `_de_`, and ends with the total and the extension. */
  lemma FileNameShape(idx: nat, total: nat, ext: string)
    ensures StartsWith(FileName(idx, total, ext), FILE_PREFIX + Decimal(idx) + OF)
    ensures EndsWith(FileName(idx, total, ext), Decimal(total) + ext)
  {
    var name := FileName(idx, total, ext);
    assert name == (FILE_PREFIX + Decimal(idx) + OF) + (Decimal(total) + ext);
  }

  lemma FileNameFields(idx: nat, total: nat, ext: string)
    ensures FileName(idx, total, ext) == FILE_PREFIX + (Decimal(idx) + (OF + (Decimal(total) + ext)))
  {
  }

  /** The fields of a name are fixed by the name: the digit runs end where `_de_` and the dot begin. */
  lemma NameFieldsUnique(a: string, b: string, e: string, c: string, d: string, f: string)
    requires AllDigits(a) && AllDigits(b) && AllDigits(c) && AllDigits(d)
    requires |e| > 0 && e[0] == '.' && |f| > 0 && f[0] == '.'
    requires FILE_PREFIX + (a + (OF + (b + e))) == FILE_PREFIX + (c + (OF + (d + f)))
    ensures a == c && b == d && e == f
  {
    DropPrefix(FILE_PREFIX, a + (OF + (b + e)), c + (OF + (d + f)));
    DigitRunUnique(a, OF + (b + e), c, OF + (d + f));
    DropPrefix(OF, b + e, d + f);
    DigitRunUnique(b, e, d, f);
  }

  /**
   * A file name gives back its ordinal, its total and its extension: no two thumbnails of a
   * run share a name, whichever extensions they get.
   */
  lemma FileNameInjective(i: nat, t: nat, e: string, j: nat, u: nat, f: string)
    requires |e| > 0 && e[0] == '.' && |f| > 0 && f[0] == '.'
    requires FileName(i, t, e) == FileName(j, u, f)
    ensures i == j && t == u && e == f
  {
    FileNameFields(i, t, e);
    FileNameFields(j, u, f);
    NameFieldsUnique(Decimal(i), Decimal(t), e, Decimal(j), Decimal(u), f);
    DecimalInjective(i, j);
    DecimalInjective(t, u);
  }

  /** A name that starts with `p + d + q` holds `d` right after `p`, followed by `q`'s first character. */
  lemma MiddlePart(name: string, p: string, d: string, q: string)
    requires StartsWith(name, p + d + q) && |q| > 0
    ensures |p| + |d| < |name|
    ensures name[|p|..][..|d|] == d && name[|p| + |d|] == q[0]
  {
    var w := p + d + q;
    assert name[..|w|] == w;
    assert name[|p| + |d|] == w[|p| + |d|];
    forall k | 0 <= k < |d| ensures name[|p|..][..|d|][k] == d[k] {
      assert name[|p| + k] == w[|p| + k];
    }
  }

  /** The ordinal is the digit run after the prefix: two names with the same ordinal part agree on it. */
  lemma OrdinalPrefixUnique(name: string, i: nat, j: nat)
    requires StartsWith(name, FILE_PREFIX + Decimal(i) + OF)
    requires StartsWith(name, FILE_PREFIX + Decimal(j) + OF)
    ensures i == j
  {
    MiddlePart(name, FILE_PREFIX, Decimal(i), OF);
    MiddlePart(name, FILE_PREFIX, Decimal(j), OF);
    DigitRunPrefix(name[|FILE_PREFIX|..], Decimal(i), Decimal(j));
    DecimalInjective(i, j);
  }

  /** After a directory part that ends with `/`, a name without `/` is the basename. */
  lemma BasenameAfterDir(dir: string, name: string)
    requires dir == "" || dir[|dir| - 1] == '/'
    requires '/' !in name
    ensures Basename(dir + name) == name
  {
    var p := dir + name;
    if dir == "" {
      assert p == name;
    } else {
      assert p[|dir| - 1] == '/' && p[|dir|..] == name;
      LastIndexOfAt(p, '/', |dir| - 1);
    }
  }

  /** A name that does not start with a dot has the extension that begins at its last dot. */
  lemma SplitNameAtLastDot(dir: string, stem: string, tail: string)
    requires dir == "" || dir[|dir| - 1] == '/'
    requires '/' !in stem && '/' !in tail && '.' !in tail
    requires |stem| > 0 && stem[0] != '.'
    ensures SplitExt(dir + (stem + ("." + tail))).1 == "." + tail
  {
    var name := stem + ("." + tail);
    var p := dir + name;
    assert '/' !in name by {
      assert forall k :: 0 <= k < |name| ==> name[k] in stem || name[k] == '.' || name[k] in tail;
    }
    BasenameAfterDir(dir, name);
    assert name[|stem|] == '.' && name[|stem| + 1..] == tail;
    LastIndexOfAt(name, '.', |stem|);
    var d := |stem|;
    assert name[..d][0] == stem[0];
    assert !AllDots(name[..d]);
    var cut := |p| - |name| + d;
    assert cut == |dir| + |stem|;
    assert SplitExt(p).1 == p[cut..];
    assert p[cut..] == "." + tail;
  }

  /**
   * The extension runs from the last dot of the basename to the end of the value, so a query
   * string stays attached to it.
   */
  lemma ExtensionKeepsQuery(dir: string, stem: string, tail: string)
    requires dir == "" || dir[|dir| - 1] == '/'
    requires '/' !in stem && '/' !in tail && '.' !in tail
    requires |stem| > 0 && stem[0] != '.'
    requires !Contains(dir + (stem + ("." + tail)), INLINE_IMAGE)
    ensures Extension(dir + (stem + ("." + tail))) == "." + tail
  {
    SplitNameAtLastDot(dir, stem, tail);
  }

  /** A query string after the extension: `photo.png?x=1` gives `.png?x=1`, not `.png`. */
  lemma QueryStringExample(stem: string, tail: string)
    requires stem == "photo" && tail == "png?x=1"
    ensures Extension(stem + ("." + tail)) == "." + tail
  {
    var url := stem + ("." + tail);
    assert url == "" + (stem + ("." + tail));
    assert '/' !in stem && '/' !in tail && '.' !in tail;
    assert !Contains(url, INLINE_IMAGE) by {
      assert url == "photo.png?x=1";
      assert 'd' !in url;
      AbsentCharNotContained(url, INLINE_IMAGE);
    }
    ExtensionKeepsQuery("", stem, tail);
  }

  /** An album page's URL has no dot in its last segment, so it falls back to `.jpg`. */
  lemma NoDotFallsBack()
    ensures Extension("https://site.example/album/42") == FALLBACK_EXT
  {
    var p := "https://site.example/album/42";
    LastIndexOfAt(p, '/', 26);
    assert Basename(p) == "42";
    assert '.' !in "42";
  }

  /** In a name made of leading dots and then no dot, the last dot is the last leading one. */
  lemma LastLeadingDot(dots: string, name: string)
    requires AllDots(dots) && '.' !in name
    ensures LastIndexOf(dots + name, '.') == |dots| - 1
    ensures |dots| <= 1 || AllDots((dots + name)[..|dots| - 1])
  {
    var b := dots + name;
    if dots != [] {
      assert b[..|dots| - 1] == dots[..|dots| - 1];
      assert b[|dots| - 1] == '.' && b[|dots|..] == name;
      LastIndexOfAt(b, '.', |dots| - 1);
    } else {
      assert b == name;
    }
  }

  /**
   * Dots that only lead the basename, as in `..hidden`, start no extension: the value is
   * kept whole and the extension is empty.
   */
  lemma LeadingDotsAreNoExtension(dir: string, dots: string, name: string)
    requires dir == "" || dir[|dir| - 1] == '/'
    requires AllDots(dots) && '/' !in name && '.' !in name
    ensures SplitExt(dir + (dots + name)) == (dir + (dots + name), "")
  {
    var b := dots + name;
    NoSlashInLeadingDots(dots, name);
    BasenameAfterDir(dir, b);
    LastLeadingDot(dots, name);
    NoSplitBeforeLeadingDots(dir + b, b, |dots| - 1);
  }

  lemma NoSlashInLeadingDots(dots: string, name: string)
    requires AllDots(dots) && '/' !in name
    ensures '/' !in dots + name
  {
    assert '/' !in dots;
  }

  lemma NoSplitBeforeLeadingDots(p: string, b: string, d: int)
    requires Basename(p) == b && LastIndexOf(b, '.') == d
    requires d <= 0 || AllDots(b[..d])
    ensures SplitExt(p) == (p, "")
  {
  }

  /** `img/..hidden` keeps its leading dots in the root and gets no extension. */
  lemma HiddenFileExample()
    ensures SplitExt("img/..hidden").1 == ""
  {
    var dir, dots, name := "img/", "..", "hidden";
    assert dir + (dots + name) == "img/..hidden";
    LeadingDotsAreNoExtension(dir, dots, name);
  }

  /** The first thumbnail of 29 saved as a JPEG. */
  lemma FileNameExample()
    ensures FileName(1, 29, FALLBACK_EXT) == "NOMBREDEARCHIVO_1_de_29.jpg"
  {
    assert Decimal(29) == Decimal(2) + [DigitChar(9)];
  }
}
