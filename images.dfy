/** Image handling in the event forms: which upload names are accepted, and
    which URL an event's image ends up with. */
module Images {
  import opened Records
  import opened PyText

  const AllowedImageExtensions: set<string> := {".jpg", ".jpeg", ".png", ".gif", ".webp"}

  /** `os.path.join('static', 'uploads')` with `/` separators, as a URL path. */
  const UploadUrlPrefix: string := "/static/uploads/"

  const PlaceholderImageUrl: string := "https://placehold.co/1200x600?text=Event+Image"

  /** Some index in [lo, hi) holds a character other than a dot. */
  predicate HasNonDot(p: string, lo: int, hi: int)
    requires 0 <= lo <= hi <= |p|
  {
    exists k :: lo <= k < hi && p[k] != '.'
  }

  /** POSIX `os.path.splitext`: the extension is the part of the last path
      component from its last dot on, unless only dots precede that dot in
      the component (so ".png" and "..png" have no extension). */
  function SplitExt(p: string): (r: (string, string))
    ensures r.0 + r.1 == p
    ensures r.1 == "" || r.1[0] == '.'
    ensures forall j :: 0 < j < |r.1| ==> r.1[j] != '.' && r.1[j] != '/'
  {
    var sep := RFind(p, '/');
    var dot := RFind(p, '.');
    if dot > sep && HasNonDot(p, sep + 1, dot) then (p[..dot], p[dot..]) else (p, "")
  }

  /** `allowed_image`: the lower-cased extension is one of the five allowed. */
  predicate AllowedImage(filename: string) {
    SplitExt(Lower(filename)).1 in AllowedImageExtensions
  }

  /** A dot followed by characters that are neither dots nor slashes. */
  predicate IsExtension(x: string) {
    |x| >= 1 && x[0] == '.' && forall j :: 0 < j < |x| ==> x[j] != '.' && x[j] != '/'
  }

  lemma AllowedAreExtensions(x: string)
    requires x in AllowedImageExtensions
    ensures IsExtension(x)
  {
  }

  /** `p` is a name ending in `x` whose last path component, before `x`, has a
      character that is neither a dot nor a slash. */
  predicate EndsWithExtension(p: string, x: string) {
    |x| <= |p| && p[|p| - |x|..] == x &&
    exists k :: 0 <= k < |p| - |x| && p[k] != '.' && p[k] != '/' &&
      forall j :: k < j < |p| - |x| ==> p[j] != '/'
  }

  /** The extension test, stated without `splitext`: a name is accepted exactly
      when, lower-cased, it ends in an allowed extension preceded by a real
      base name. */
  lemma AllowedImageIff(f: string)
    ensures AllowedImage(f) <==> exists x :: x in AllowedImageExtensions && EndsWithExtension(Lower(f), x)
  {
    var p := Lower(f);
    var sep := RFind(p, '/');
    var dot := RFind(p, '.');
    if AllowedImage(f) {
      var x := SplitExt(p).1;
      assert dot > sep && HasNonDot(p, sep + 1, dot);
      var k :| sep + 1 <= k < dot && p[k] != '.';
      assert p[|p| - |x|..] == x;
      assert EndsWithExtension(p, x);
    }
    if x :| x in AllowedImageExtensions && EndsWithExtension(p, x) {
      AllowedAreExtensions(x);
      ExtensionFound(p, x);
    }
  }

  /** `splitext` finds every extension a name ends in after a real base name. */
  lemma ExtensionFound(p: string, x: string)
    requires IsExtension(x) && EndsWithExtension(p, x)
    ensures SplitExt(p).1 == x
  {
    var n := |p| - |x|;
    assert forall j :: n <= j < |p| ==> p[j] == x[j - n];
    var sep := RFind(p, '/');
    var dot := RFind(p, '.');
    assert dot == n;
    var k :| 0 <= k < n && p[k] != '.' && p[k] != '/' && forall j :: k < j < n ==> p[j] != '/';
    assert sep < k;
    assert HasNonDot(p, sep + 1, dot);
  }

  /** Conversely, an extension `splitext` returns ends the name after a real
      base name. */
  lemma ExtensionEndsName(p: string)
    requires SplitExt(p).1 != ""
    ensures EndsWithExtension(p, SplitExt(p).1)
  {
    var x := SplitExt(p).1;
    var sep := RFind(p, '/');
    var dot := RFind(p, '.');
    var k :| sep + 1 <= k < dot && p[k] != '.';
    assert p[|p| - |x|..] == x;
  }

  /** `splitext` on all names: an extension is found exactly when the name
      ends in one after a real base name, and then it is that one. */
  lemma SplitExtIff(p: string)
    ensures SplitExt(p).1 != "" <==> exists x :: IsExtension(x) && EndsWithExtension(p, x)
    ensures forall x :: IsExtension(x) && EndsWithExtension(p, x) ==> SplitExt(p).1 == x
  {
    if SplitExt(p).1 != "" {
      ExtensionEndsName(p);
      assert IsExtension(SplitExt(p).1);
    }
    forall x | IsExtension(x) && EndsWithExtension(p, x) ensures SplitExt(p).1 == x {
      ExtensionFound(p, x);
    }
  }

  /** The test ignores letter case. */
  lemma AllowedImageIgnoresCase(f: string)
    ensures AllowedImage(f) == AllowedImage(Lower(f))
  {
    LowerIdempotent(f);
  }

  lemma AcceptsUpperCaseExtension()
    ensures AllowedImage("Poster.JPG")
  {
    assert Lower("Poster.JPG") == "poster.jpg";
    assert EndsWithExtension("poster.jpg", ".jpg") by {
      assert "poster.jpg"[0] != '.';
    }
    AllowedImageIff("Poster.JPG");
  }

  lemma AcceptsLastOfSeveralExtensions()
    ensures AllowedImage("a.tar.webp")
  {
    assert Lower("a.tar.webp") == "a.tar.webp";
    assert EndsWithExtension("a.tar.webp", ".webp") by {
      assert "a.tar.webp"[0] != '.';
    }
    AllowedImageIff("a.tar.webp");
  }

  /** A name that is only a dot and an extension has no extension. */
  lemma RejectsHiddenName()
    ensures !AllowedImage(".png")
  {
    assert Lower(".png") == ".png";
    assert RFind(".png", '.') == 0;
  }

  /** A name whose real extension is not allowed is refused. */
  lemma RefusedExtension(f: string, x: string)
    requires IsExtension(x) && EndsWithExtension(Lower(f), x) && x !in AllowedImageExtensions
    ensures !AllowedImage(f)
  {
    ExtensionFound(Lower(f), x);
  }

  /** Only the last extension counts: "a.png.exe" is refused. */
  lemma RejectsOtherFinalExtension()
    ensures !AllowedImage("a.png.exe")
  {
    var name := "a.png.exe";
    assert IsExtension(".exe") && EndsWithExtension(Lower(name), ".exe") && ".exe" !in AllowedImageExtensions by {
      assert Lower(name) == name by {
        LowerWithoutCapitals(name);
      }
      assert name[|name| - 4..] == ".exe";
      assert name[0] != '.' && name[0] != '/';
    }
    RefusedExtension(name, ".exe");
  }

  /** URL of an accepted upload; `upload` is the sanitised name of the file
      part, absent when no file (or a file with an empty name) was sent. */
  function UploadedImageUrl(upload: Option<string>): (r: Option<string>)
    ensures r.Some? <==> upload.Some? && AllowedImage(upload.value)
    ensures r.Some? ==> r.value == UploadUrlPrefix + upload.value && r.value != ""
  {
    if upload.Some? && AllowedImage(upload.value) then Some(UploadUrlPrefix + upload.value) else None
  }

  /** The image URL `create_event` stores. */
  function ImageUrlOnCreate(formUrl: string, upload: Option<string>): (r: string)
    ensures r != ""
    ensures UploadedImageUrl(upload).Some? ==> r == UploadedImageUrl(upload).value
    ensures UploadedImageUrl(upload).None? && Required(formUrl) ==> r == Strip(formUrl)
    ensures UploadedImageUrl(upload).None? && !Required(formUrl) ==> r == PlaceholderImageUrl
  {
    var typed := if formUrl != "" then Strip(formUrl) else "";
    var chosen := match UploadedImageUrl(upload) case Some(u) => u case None => typed;
    if chosen == "" then PlaceholderImageUrl else chosen
  }

  /** The image URL `update_event` stores over `current`. */
  function ImageUrlOnUpdate(current: string, formUrl: string, upload: Option<string>): (r: string)
    ensures UploadedImageUrl(upload).Some? ==> r == UploadedImageUrl(upload).value
    ensures UploadedImageUrl(upload).None? && formUrl == "" ==> r == current
    ensures UploadedImageUrl(upload).None? && formUrl != "" ==> r == Strip(formUrl)
  {
    var typed := if formUrl != "" then Strip(formUrl) else current;
    match UploadedImageUrl(upload) case Some(u) => u case None => typed
  }

  /** A URL field holding only whitespace clears the stored image on update
      (there is no placeholder fallback there, unlike on create). */
  lemma BlankUrlClearsImageOnUpdate(current: string, formUrl: string)
    requires formUrl != "" && !Required(formUrl)
    ensures ImageUrlOnUpdate(current, formUrl, None) == ""
    ensures ImageUrlOnCreate(formUrl, None) == PlaceholderImageUrl
  {
  }
}
