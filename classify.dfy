/**
 * How sort_file names and classifies a file: the lower-cased text after the
 * last '.', the filter for partial downloads, and the first-match lookup of
 * that extension in the configured categories.
 */
module Classify {
  import opened Wrappers
  import opened PathOps

  predicate IsUpper(c: char) {
    'A' <= c <= 'Z'
  }

  /** str.lower on one character, for the ASCII letters. */
  function LowerChar(c: char): (r: char)
    ensures !IsUpper(r)
    ensures r == '.' <==> c == '.'
    ensures IsUpper(c) ==> r as int == c as int + 32
    ensures !IsUpper(c) ==> r == c
  {
    if IsUpper(c) then (c as int - 'A' as int + 'a' as int) as char else c
  }

  /** str.lower, character by character. */
  function ToLower(s: string): (r: string)
    ensures |r| == |s|
    ensures forall i :: 0 <= i < |s| ==> r[i] == LowerChar(s[i])
  {
    if |s| == 0 then "" else [LowerChar(s[0])] + ToLower(s[1..])
  }

  /** The text after the last '.', or the whole name when there is none: filename.split(".")[-1]. */
  function LastField(filename: string): string {
    filename[LastIndexOf(filename, '.') + 1..]
  }

  /** The extension sort_file classifies by: filename.split(".")[-1].lower(). */
  function Extension(filename: string): string {
    ToLower(LastField(filename))
  }

  /**
   * The extension is the lower-cased text after the last '.': it holds no '.'
   * and no upper-case letter, it is the lower-casing of a suffix of the name,
   * and that suffix is the whole name or is preceded by a '.'.
   */
  lemma ExtensionSpec(filename: string)
    ensures '.' !in Extension(filename)
    ensures forall i :: 0 <= i < |Extension(filename)| ==> !IsUpper(Extension(filename)[i])
    ensures var n := |Extension(filename)|;
      n <= |filename| && Extension(filename) == ToLower(filename[|filename| - n..])
      && (n < |filename| ==> filename[|filename| - n - 1] == '.')
    ensures '.' !in filename ==> Extension(filename) == ToLower(filename)
  {
    var r := LastField(filename);
    assert forall k :: 0 <= k < |r| ==> r[k] == filename[LastIndexOf(filename, '.') + 1 + k];
  }

  /**
   * When splitext finds an extension, the extension sort_file classifies by
   * is that one without its dot, lower-cased.
   */
  lemma ExtensionAgreesWithSplitExt(filename: string)
    requires SplitExt(filename).1 != ""
    ensures Extension(filename) == ToLower(SplitExt(filename).1[1..])
  {
    SplitExtSpec(filename);
    var parts := SplitExt(filename);
    var dot := LastIndexOf(filename, '.');
    assert |parts.0| == dot;
    assert parts.1 == filename[dot..];
    assert parts.1[1..] == filename[dot + 1..];
  }

  /**
   * filename.endswith((".crdownload", ".part", ".tmp")): the name of a download
   * still in progress, by a case-sensitive suffix test.
   */
  predicate IsIncomplete(filename: string) {
    EndsWith(filename, ".crdownload") || EndsWith(filename, ".part") || EndsWith(filename, ".tmp")
  }

  /** One entry of the extensions config: a category and the extensions it claims, in file order. */
  datatype Category = Category(name: string, extensions: seq<string>)

  /** The config the script writes when none exists. */
  const DEFAULT_EXTENSIONS: seq<Category> := [
    Category("Documents", ["pdf", "docx", "txt", "xlsx", "pptx"]),
    Category("Pictures", ["jpg", "jpeg", "png", "gif"]),
    Category("Videos", ["mp4", "mkv", "avi", "mov"]),
    Category("Music", ["mp3", "wav", "flac"])
  ]

  /** The position of the first category, in config order, that lists `ext`. */
  function FirstMatch(categories: seq<Category>, ext: string): (r: Option<nat>)
    ensures r.Some? ==> r.value < |categories| && ext in categories[r.value].extensions
    ensures r.Some? ==> forall j :: 0 <= j < r.value ==> ext !in categories[j].extensions
    ensures r.None? ==> forall j :: 0 <= j < |categories| ==> ext !in categories[j].extensions
  {
    if |categories| == 0 then None
    else if ext in categories[0].extensions then Some(0)
    else match FirstMatch(categories[1..], ext)
      case None => None
      case Some(i) => Some(i + 1)
  }

  /**
   * Where sort_file's lookup sends a file with extension `ext`: the destination
   * folder of the first category listing it, if that category has one.
   */
  function Route(categories: seq<Category>, destinations: map<string, string>, ext: string): Option<string> {
    match FirstMatch(categories, ext)
    case None => None
    case Some(i) => Lookup(destinations, categories[i].name)
  }

  /** The category at position i decides the route exactly when it is the first that lists ext. */
  lemma RouteByFirstListing(categories: seq<Category>, destinations: map<string, string>, ext: string, i: nat)
    requires i < |categories| && ext in categories[i].extensions
    requires forall j :: 0 <= j < i ==> ext !in categories[j].extensions
    ensures FirstMatch(categories, ext) == Some(i)
    ensures Route(categories, destinations, ext) == Lookup(destinations, categories[i].name)
  {
  }

  /** Categories after the first match are never consulted, whatever they list. */
  lemma RouteIgnoresLaterCategories(categories: seq<Category>, later: seq<Category>,
                                    destinations: map<string, string>, ext: string)
    requires FirstMatch(categories, ext).Some?
    ensures Route(categories + later, destinations, ext) == Route(categories, destinations, ext)
  {
    var i := FirstMatch(categories, ext).value;
    var all := categories + later;
    assert all[i] == categories[i];
    assert forall j :: 0 <= j < i ==> all[j] == categories[j];
    RouteByFirstListing(all, destinations, ext, i);
  }

  /**
   * The route is missing exactly when no category lists ext, or the first
   * one that does has no destination folder, even if a later category would.
   */
  lemma RouteMissing(categories: seq<Category>, destinations: map<string, string>, ext: string)
    ensures Route(categories, destinations, ext).None? <==>
      (forall j :: 0 <= j < |categories| ==> ext !in categories[j].extensions)
      || (exists i :: 0 <= i < |categories| && ext in categories[i].extensions
            && (forall j :: 0 <= j < i ==> ext !in categories[j].extensions)
            && categories[i].name !in destinations)
  {
    var r := FirstMatch(categories, ext);
    if r.Some? {
      var i := r.value;
      forall i' | 0 <= i' < |categories| && ext in categories[i'].extensions
          && (forall j :: 0 <= j < i' ==> ext !in categories[j].extensions)
        ensures i' == i
      {
        RouteByFirstListing(categories, destinations, ext, i');
      }
    }
  }

  /**
   * The route gives no usable folder (none, or the empty string) exactly when
   * no category lists ext, the first that does has no folder, or that folder is "".
   */
  lemma NoUsableRoute(categories: seq<Category>, destinations: map<string, string>, ext: string)
    ensures var r, m := Route(categories, destinations, ext), FirstMatch(categories, ext);
      (r.None? || r.value == "") <==>
        || m.None?
        || categories[m.value].name !in destinations
        || destinations[categories[m.value].name] == ""
  {
  }

  /** The route is a given folder exactly when the first category listing ext maps to that folder. */
  lemma RouteTo(categories: seq<Category>, destinations: map<string, string>, ext: string, folder: string)
    ensures var m := FirstMatch(categories, ext);
      Route(categories, destinations, ext) == Some(folder) <==>
        m.Some? && categories[m.value].name in destinations && destinations[categories[m.value].name] == folder
  {
  }

  /**
   * The loop in sort_file that picks the destination: walk the categories in
   * order and stop at the first that lists ext, taking its folder (or None).
   */
  method ResolveDestination(categories: seq<Category>, destinations: map<string, string>, ext: string)
    returns (destination: Option<string>)
    ensures destination == Route(categories, destinations, ext)
  {
    destination := None;
    for i := 0 to |categories|
      invariant destination == None
      invariant forall j :: 0 <= j < i ==> ext !in categories[j].extensions
    {
      if ext in categories[i].extensions {
        destination := Lookup(destinations, categories[i].name);
        RouteByFirstListing(categories, destinations, ext, i);
        return;
      }
    }
  }

  /** With the default config, jpg files go to the Pictures folder: Documents does not list jpg. */
  lemma DefaultRoutesPicture(destinations: map<string, string>)
    ensures Route(DEFAULT_EXTENSIONS, destinations, "jpg") == Lookup(destinations, "Pictures")
  {
    var documents := DEFAULT_EXTENSIONS[0].extensions;
    assert documents == ["pdf", "docx", "txt", "xlsx", "pptx"];
    assert forall j :: 0 <= j < |documents| ==> documents[j][0] != 'j';
    RouteByFirstListing(DEFAULT_EXTENSIONS, destinations, "jpg", 1);
  }

  /** An upper-case extension is lower-cased before lookup. */
  lemma ExtensionOfUpperCaseName()
    ensures Extension("holiday.JPG") == "jpg"
  {
    var name := "holiday.JPG";
    assert name[7] == '.' && name[8] == 'J' && name[9] == 'P' && name[10] == 'G';
    assert LastIndexOf(name, '.') == 7;
    assert LastField(name) == "JPG";
    var r := ToLower("JPG");
    assert r[0] == 'j' && r[1] == 'p' && r[2] == 'g';
  }

  /** A name without a '.' is its own extension, lower-cased. */
  lemma ExtensionOfDotlessName()
    ensures Extension("PDF") == "pdf"
  {
  }

  /** A leading-dot name gets the text after the dot, although splitext sees no extension in it. */
  lemma ExtensionOfHiddenName()
    ensures Extension(".bashrc") == "bashrc" && SplitExt(".bashrc") == (".bashrc", "")
  {
    var name := ".bashrc";
    assert name[0] == '.' && '.' !in name[1..] && '/' !in name;
    assert LastIndexOf(name, '.') == 0 && LastIndexOf(name, '/') == -1;
    assert LastField(name) == "bashrc";
    var r := ToLower("bashrc");
    assert forall i :: 0 <= i < |r| ==> r[i] == "bashrc"[i];
  }

  /** The partial-download test is on the exact, case-sensitive suffix. */
  lemma IncompleteIsCaseSensitive()
    ensures IsIncomplete("movie.mp4.part") && IsIncomplete("setup.crdownload")
    ensures !IsIncomplete("notes.TMP") && !IsIncomplete("part")
  {
  }
}
