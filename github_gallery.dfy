/**
 * The gallery-data fetcher of js/githubGallery.js: which files of a GitHub
 * directory listing become photos, how a file name becomes a photo record,
 * and when the localStorage cache is used instead of the network.
 *
 * The two HTTP requests the fetcher makes (the latest commit of the path and
 * the directory contents) are parameters holding their responses. localStorage
 * is the value Storage: its two entries, the photo list (as JSON.parse returns
 * what JSON.stringify stored) and the commit SHA. formatDate, which depends on
 * the browser's locale, and the localeCompare order are parameters too.
 */
module GithubGallery {
  import opened Wrappers
  import opened JsText
  import opened Sequences

  /** An entry of the contents API listing: its `name` and its `type`. */
  datatype FileEntry = FileEntry(name: string, kind: string)

  /** The photo object transformToPhotoObject returns; `null` is None. */
  datatype Photo = Photo(
    fullImage: string, srcset: string, src: string, alt: string,
    width: int, height: int, title: string,
    date: Option<string>, dateDisplay: Option<string>)

  const DefaultWidth: int := 1200
  const DefaultHeight: int := 800

  // ---------------------------------------------------------------------------
  // The image filter

  /** The name ends in a dot and then `ext`, letters compared without case. */
  predicate EndsWithExtension(name: string, ext: string)
  {
    |name| > |ext| && name[|name| - |ext| - 1] == '.' && LowerString(name[|name| - |ext|..]) == ext
  }

  /** `/\.(jpg|jpeg|png|gif|webp)$/i` matches the name. */
  predicate HasImageExtension(name: string)
  {
    EndsWithExtension(name, "jpg") || EndsWithExtension(name, "jpeg") || EndsWithExtension(name, "png")
    || EndsWithExtension(name, "gif") || EndsWithExtension(name, "webp")
  }

  /** The filter's test: a file, not a directory or link, with an image extension. */
  predicate IsImage(f: FileEntry)
  {
    f.kind == "file" && HasImageExtension(f.name)
  }

  /**
   * `contents.filter(...)`: exactly the image entries, in listing order, each
   * as often as the listing holds it.
   */
  function FilterImages(contents: seq<FileEntry>): (r: seq<FileEntry>)
    ensures forall f :: f in r <==> f in contents && IsImage(f)
    ensures forall f :: multiset(r)[f] == if IsImage(f) then multiset(contents)[f] else 0
    ensures IsSubsequence(r, contents)
  {
    if |contents| == 0 then []
    else
      var rest := FilterImages(contents[1..]);
      assert contents == [contents[0]] + contents[1..];
      if IsImage(contents[0]) then
        [contents[0]] + rest
      else
        assert rest == [] || rest[0] != contents[0];
        rest
  }

  // ---------------------------------------------------------------------------
  // Sorting by name

  /** The order `a.name.localeCompare(b.name) <= 0` is assumed to be: total and transitive. */
  ghost predicate IsTotalPreorder(leq: (string, string) -> bool)
  {
    && (forall a, b :: leq(a, b) || leq(b, a))
    && (forall a, b, c :: leq(a, b) && leq(b, c) ==> leq(a, c))
  }

  predicate SortedByName(files: seq<FileEntry>, leq: (string, string) -> bool)
  {
    forall i, j :: 0 <= i < j < |files| ==> leq(files[i].name, files[j].name)
  }

  /** Insert f before the first entry it is not after. */
  function InsertByName(f: FileEntry, sorted: seq<FileEntry>, leq: (string, string) -> bool): (r: seq<FileEntry>)
    requires IsTotalPreorder(leq) && SortedByName(sorted, leq)
    ensures multiset(r) == multiset(sorted) + multiset{f}
    ensures forall x :: x in r ==> x == f || x in sorted
    ensures SortedByName(r, leq)
  {
    if |sorted| == 0 then [f]
    else if leq(f.name, sorted[0].name) then
      SortedPrepend(f, sorted, leq);
      [f] + sorted
    else
      var rest := InsertByName(f, sorted[1..], leq);
      var r := [sorted[0]] + rest;
      assert multiset(r) == multiset(sorted) + multiset{f} by {
        assert sorted == [sorted[0]] + sorted[1..];
      }
      assert forall x :: x in r ==> x == f || x in sorted by {
        assert sorted == [sorted[0]] + sorted[1..];
      }
      assert SortedByName(r, leq) by {
        assert |rest| > 0 ==> rest[0] in rest;
        SortedPrepend(sorted[0], rest, leq);
      }
      r
  }

  /**
   * Putting h in front of a sorted list keeps it sorted when h is not after
   * the list's first entry.
   */
  lemma SortedPrepend(h: FileEntry, rest: seq<FileEntry>, leq: (string, string) -> bool)
    requires IsTotalPreorder(leq) && SortedByName(rest, leq)
    requires |rest| > 0 ==> leq(h.name, rest[0].name)
    ensures SortedByName([h] + rest, leq)
  {
    var all := [h] + rest;
    forall i, j | 0 <= i < j < |all| ensures leq(all[i].name, all[j].name) {
      if i > 0 {
        assert all[i] == rest[i - 1] && all[j] == rest[j - 1];
      } else if j > 1 {
        assert leq(rest[0].name, rest[j - 1].name);
      }
    }
  }

  /** `imageFiles.sort(...)` by name: a permutation of its input, in order. */
  function SortByName(files: seq<FileEntry>, leq: (string, string) -> bool): (r: seq<FileEntry>)
    requires IsTotalPreorder(leq)
    ensures multiset(r) == multiset(files)
    ensures SortedByName(r, leq)
  {
    if |files| == 0 then []
    else
      assert files == [files[0]] + files[1..];
      InsertByName(files[0], SortByName(files[1..], leq), leq)
  }

  // ---------------------------------------------------------------------------
  // From file name to title

  /** `/\.[^/.]+$/` matches at k: a dot, then at least one character, none a dot or a slash, to the end. */
  predicate ExtensionAt(name: string, k: nat)
  {
    k + 1 < |name| && name[k] == '.' && forall i :: k < i < |name| ==> name[i] != '.' && name[i] != '/'
  }

  function LastDot(s: string): (r: Option<nat>)
    ensures r.Some? ==> r.value < |s| && s[r.value] == '.' && forall i :: r.value < i < |s| ==> s[i] != '.'
    ensures r.None? ==> forall i :: 0 <= i < |s| ==> s[i] != '.'
  {
    if |s| == 0 then None
    else if s[|s| - 1] == '.' then Some(|s| - 1)
    else LastDot(s[..|s| - 1])
  }

  /**
   * `.replace(/\.[^/.]+$/, '')`: the name without its extension. The result
   * is a prefix of the name; it is shorter exactly when the pattern matches,
   * and then the pattern matches right where it ends.
   */
  function StripExtension(name: string): (r: string)
    ensures |r| <= |name| && r == name[..|r|]
    ensures r != name ==> ExtensionAt(name, |r|)
    ensures r == name ==> forall k :: 0 <= k < |name| ==> !ExtensionAt(name, k)
  {
    match LastDot(name)
    case None => name
    case Some(k) => if ExtensionAt(name, k) then name[..k] else name
  }

  /** `.replace(/[-_]/g, ' ')`: hyphens and underscores become spaces, nothing else changes. */
  function ReplaceSeparators(s: string): (r: string)
    ensures |r| == |s|
    ensures forall i :: 0 <= i < |s| ==> r[i] == (if s[i] == '-' || s[i] == '_' then ' ' else s[i])
  {
    seq(|s|, i requires 0 <= i < |s| => if s[i] == '-' || s[i] == '_' then ' ' else s[i])
  }

  predicate IsDigit(c: char)
  {
    '0' <= c <= '9'
  }

  /** `^\d{4}-\d{2}-\d{2}` matches: s starts with YYYY-MM-DD. */
  predicate HasDatePrefix(s: string)
  {
    && |s| >= 10
    && IsDigit(s[0]) && IsDigit(s[1]) && IsDigit(s[2]) && IsDigit(s[3]) && s[4] == '-'
    && IsDigit(s[5]) && IsDigit(s[6]) && s[7] == '-' && IsDigit(s[8]) && IsDigit(s[9])
  }

  // The date replace of the title: a leading YYYY-MM-DD and the spaces after it are dropped.
  function StripDatePrefix(s: string): (r: string)
    ensures !HasDatePrefix(s) ==> r == s
    ensures HasDatePrefix(s) ==> |r| <= |s| - 10 && r == s[|s| - |r|..]
    ensures HasDatePrefix(s) ==> r == [] || !IsJsSpace(r[0])
    ensures HasDatePrefix(s) ==> forall i :: 10 <= i < |s| - |r| ==> IsJsSpace(s[i])
  {
    if HasDatePrefix(s) then TrimStart(s[10..]) else s
  }

  /**
   * The date replace runs after every hyphen has become a space, so it never
   * matches: a title keeps a leading date, with its hyphens as spaces.
   */
  lemma DateStripNeverMatches(name: string)
    ensures !HasDatePrefix(ReplaceSeparators(StripExtension(name)))
    ensures StripDatePrefix(ReplaceSeparators(StripExtension(name))) == ReplaceSeparators(StripExtension(name))
  {
    var s := ReplaceSeparators(StripExtension(name));
    if |s| >= 10 {
      assert s[4] != '-';
    }
  }

  /**
   * The title before capitalisation: the four replaces and trim, in the
   * script's order. Since the date replace never applies, it is the trimmed,
   * extension-less name with its separators turned into spaces.
   */
  function RawTitle(name: string): (r: string)
    ensures r == Trim(ReplaceSeparators(StripExtension(name)))
    ensures |r| <= |name|
  {
    DateStripNeverMatches(name);
    Trim(StripDatePrefix(ReplaceSeparators(StripExtension(name))))
  }

  /** `word.charAt(0).toUpperCase() + word.slice(1)`. */
  function CapitalizeWord(w: string): (r: string)
    ensures |r| == |w|
    ensures |w| > 0 ==> r[0] == Upper(w[0]) && r[1..] == w[1..]
  {
    if |w| == 0 then w else [Upper(w[0])] + w[1..]
  }

  function CapitalizeAll(words: seq<string>): (r: seq<string>)
    ensures |r| == |words| && forall k :: 0 <= k < |words| ==> r[k] == CapitalizeWord(words[k])
  {
    seq(|words|, k requires 0 <= k < |words| => CapitalizeWord(words[k]))
  }

  /**
   * Splitting the capitalised words joined again gives the same number of
   * words, each the capitalised original word.
   */
  lemma FormatTitleWords(title: string)
    ensures SplitOn(JoinWith(CapitalizeAll(SplitOn(title, ' ')), ' '), ' ') == CapitalizeAll(SplitOn(title, ' '))
  {
    var words := SplitOn(title, ' ');
    var capped := CapitalizeAll(words);
    forall k | 0 <= k < |capped|
      ensures ' ' !in capped[k]
    {
      if |words[k]| > 0 {
        UpperKeepsNonLetters(words[k][0]);
        assert capped[k] == [Upper(words[k][0])] + words[k][1..];
      }
    }
    SplitJoin(capped, ' ');
  }

  /** b is a with some characters upper-cased, and nothing else changed. */
  predicate UpperVariant(a: string, b: string)
  {
    |a| == |b| && forall i :: 0 <= i < |a| ==> b[i] == a[i] || b[i] == Upper(a[i])
  }

  lemma UpperVariantConcat(a1: string, b1: string, a2: string, b2: string)
    requires UpperVariant(a1, b1) && UpperVariant(a2, b2)
    ensures UpperVariant(a1 + a2, b1 + b2)
  {
    forall i | 0 <= i < |a1 + a2|
      ensures (b1 + b2)[i] == (a1 + a2)[i] || (b1 + b2)[i] == Upper((a1 + a2)[i])
    {
      if i >= |a1| {
        assert (a1 + a2)[i] == a2[i - |a1|] && (b1 + b2)[i] == b2[i - |a1|];
      }
    }
  }

  lemma {:induction false} JoinUpperVariant(ws: seq<string>, vs: seq<string>, sep: char)
    requires |ws| == |vs| && forall k :: 0 <= k < |ws| ==> UpperVariant(ws[k], vs[k])
    ensures UpperVariant(JoinWith(ws, sep), JoinWith(vs, sep))
  {
    if |ws| > 1 {
      JoinUpperVariant(ws[1..], vs[1..], sep);
      UpperVariantConcat(ws[0], vs[0], [sep], [sep]);
      UpperVariantConcat(ws[0] + [sep], vs[0] + [sep], JoinWith(ws[1..], sep), JoinWith(vs[1..], sep));
    }
  }

  /** Capitalising the words and joining them only upper-cases characters of the title. */
  lemma FormatTitleChars(title: string)
    ensures UpperVariant(title, JoinWith(CapitalizeAll(SplitOn(title, ' ')), ' '))
  {
    var words := SplitOn(title, ' ');
    forall k | 0 <= k < |words|
      ensures UpperVariant(words[k], CapitalizeAll(words)[k])
    {
    }
    JoinUpperVariant(words, CapitalizeAll(words), ' ');
    JoinSplit(title, ' ');
  }

  /**
   * `title.split(' ').map(...).join(' ')`: the same words, each capitalised,
   * and the same characters apart from upper-casing.
   */
  function FormatTitle(title: string): (r: string)
    ensures SplitOn(r, ' ') == CapitalizeAll(SplitOn(title, ' '))
    ensures |SplitOn(r, ' ')| == |SplitOn(title, ' ')|
    ensures UpperVariant(title, r)
  {
    FormatTitleWords(title);
    FormatTitleChars(title);
    JoinWith(CapitalizeAll(SplitOn(title, ' ')), ' ')
  }

  /** No hyphen or underscore survives ReplaceSeparators. */
  lemma SeparatorsReplaced(s: string)
    ensures '-' !in ReplaceSeparators(s) && '_' !in ReplaceSeparators(s)
  {
    var r := ReplaceSeparators(s);
    forall i | 0 <= i < |r|
      ensures r[i] != '-' && r[i] != '_'
    {
    }
  }

  /** Trim only removes characters: one absent from s is absent from the result. */
  lemma TrimKeepsAbsent(s: string, c: char)
    requires c !in s
    ensures c !in Trim(s)
  {
    var r := Trim(s);
    var start := LeadingSpaces(s);
    forall i | 0 <= i < |r|
      ensures r[i] != c
    {
      assert r[i] == s[start + i];
    }
  }

  /** Upper-casing some letters keeps hyphens, underscores and spaces where they were. */
  lemma UpperVariantKeeps(a: string, b: string)
    requires UpperVariant(a, b)
    ensures forall i :: 0 <= i < |a| ==> (IsJsSpace(b[i]) <==> IsJsSpace(a[i]))
    ensures '-' in b <==> '-' in a
    ensures '_' in b <==> '_' in a
  {
    forall i | 0 <= i < |a|
      ensures IsJsSpace(b[i]) <==> IsJsSpace(a[i])
      ensures b[i] == '-' <==> a[i] == '-'
      ensures b[i] == '_' <==> a[i] == '_'
    {
      UpperKeepsNonLetters(a[i]);
    }
  }

  /**
   * Before capitalisation the title (the trimmed stretch of the
   * extension-less name that RawTitle and Trim describe) has no hyphen or
   * underscore and no space at either end.
   */
  lemma RawTitleShape(name: string)
    ensures '-' !in RawTitle(name) && '_' !in RawTitle(name)
    ensures var t := RawTitle(name);
      t == [] || (!IsJsSpace(t[0]) && !IsJsSpace(t[|t| - 1]))
  {
    var s := ReplaceSeparators(StripExtension(name));
    SeparatorsReplaced(StripExtension(name));
    TrimKeepsAbsent(s, '-');
    TrimKeepsAbsent(s, '_');
  }

  /**
   * The title of a photo has no hyphen or underscore, does not start or end
   * with a space, and is the raw title with some letters upper-cased.
   */
  lemma TitleShape(name: string)
    ensures UpperVariant(RawTitle(name), FormatTitle(RawTitle(name)))
    ensures '-' !in FormatTitle(RawTitle(name)) && '_' !in FormatTitle(RawTitle(name))
    ensures var t := FormatTitle(RawTitle(name));
      t == [] || (!IsJsSpace(t[0]) && !IsJsSpace(t[|t| - 1]))
  {
    var raw := RawTitle(name);
    RawTitleShape(name);
    var t := FormatTitle(raw);
    UpperVariantKeeps(raw, t);
  }

  // ---------------------------------------------------------------------------
  // Dates and the photo record

  /** `file.name.match(/^(\d{4}-\d{2}-\d{2})/)`: the leading date, or null. */
  function ExtractDate(name: string): (r: Option<string>)
    ensures r.Some? <==> HasDatePrefix(name)
    ensures r.Some? ==> |r.value| == 10 && r.value == name[..10]
  {
    if HasDatePrefix(name) then Some(name[..10]) else None
  }

  /** A name that starts with a date yields exactly that date, whatever follows. */
  lemma ExtractDateOfDatedName(date: string, rest: string)
    requires |date| == 10 && HasDatePrefix(date)
    ensures ExtractDate(date + rest) == Some(date)
  {
    assert (date + rest)[..10] == date;
  }

  function RawBaseUrl(owner: string, repo: string, branch: string): string
  {
    "https://raw.githubusercontent.com/" + owner + "/" + repo + "/" + branch
  }

  /**
   * transformToPhotoObject: the three image URLs are the same raw URL,
   * ending in "/" and the file name (the directory path plays no part), the
   * alt text is the title, the size is the fixed 1200x800, and the display
   * date exists exactly when a date was found.
   */
  function TransformToPhoto(file: FileEntry, owner: string, repo: string, branch: string, formatDate: string -> string): (p: Photo)
    ensures p.fullImage == p.src == p.srcset
    ensures p.fullImage == RawBaseUrl(owner, repo, branch) + "/" + file.name
    ensures p.alt == p.title == FormatTitle(RawTitle(file.name))
    ensures p.width == DefaultWidth && p.height == DefaultHeight
    ensures p.date == ExtractDate(file.name)
    ensures p.dateDisplay.None? <==> p.date.None?
    ensures p.date.Some? ==> p.dateDisplay == Some(formatDate(p.date.value))
  {
    var fullUrl := RawBaseUrl(owner, repo, branch) + "/" + file.name;
    var title := FormatTitle(RawTitle(file.name));
    var date := ExtractDate(file.name);
    var dateDisplay := if date.Some? then Some(formatDate(date.value)) else None;
    Photo(fullUrl, fullUrl, fullUrl, title, DefaultWidth, DefaultHeight, title, date, dateDisplay)
  }

  /** The filter, the sort and the map of fetchGalleryData, in that order. */
  function BuildPhotos(contents: seq<FileEntry>, owner: string, repo: string, branch: string,
                       leq: (string, string) -> bool, formatDate: string -> string): (photos: seq<Photo>)
    requires IsTotalPreorder(leq)
    ensures var files := SortByName(FilterImages(contents), leq);
      |photos| == |files| && forall i :: 0 <= i < |files| ==> photos[i] == TransformToPhoto(files[i], owner, repo, branch, formatDate)
  {
    TransformAll(SortByName(FilterImages(contents), leq), owner, repo, branch, formatDate)
  }

  /** `.map(file => transformToPhoto(file, …))`: one photo per entry, in order. */
  function TransformAll(files: seq<FileEntry>, owner: string, repo: string, branch: string,
                        formatDate: string -> string): (photos: seq<Photo>)
    ensures |photos| == |files|
    ensures forall i :: 0 <= i < |files| ==> photos[i] == TransformToPhoto(files[i], owner, repo, branch, formatDate)
  {
    seq(|files|, i requires 0 <= i < |files| => TransformToPhoto(files[i], owner, repo, branch, formatDate))
  }

  /** Every photo comes from exactly one image entry of the listing, and every image entry gives one. */
  lemma BuildPhotosCoversImages(contents: seq<FileEntry>, owner: string, repo: string, branch: string,
                                leq: (string, string) -> bool, formatDate: string -> string)
    requires IsTotalPreorder(leq)
    ensures |BuildPhotos(contents, owner, repo, branch, leq, formatDate)| == |FilterImages(contents)|
    ensures forall f :: f in contents && IsImage(f) ==>
      TransformToPhoto(f, owner, repo, branch, formatDate) in BuildPhotos(contents, owner, repo, branch, leq, formatDate)
  {
    var images := FilterImages(contents);
    var files := SortByName(images, leq);
    assert |multiset(files)| == |multiset(images)|;
    forall f | f in contents && IsImage(f)
      ensures TransformToPhoto(f, owner, repo, branch, formatDate) in BuildPhotos(contents, owner, repo, branch, leq, formatDate)
    {
      assert f in multiset(images);
      assert f in multiset(files);
      var i :| 0 <= i < |files| && files[i] == f;
      assert BuildPhotos(contents, owner, repo, branch, leq, formatDate)[i] == TransformToPhoto(f, owner, repo, branch, formatDate);
    }
  }

  // ---------------------------------------------------------------------------
  // The localStorage cache

  /** The two localStorage entries: the photo list and the SHA it was fetched at. */
  datatype Storage = Storage(photos: Option<seq<Photo>>, sha: Option<string>)

  /** What checkCache returns when it returns an object. */
  datatype Cached = Cached(photos: seq<Photo>, sha: string)

  /**
   * checkCache: a cache exists only when both entries are present and
   * non-empty; a stored empty SHA counts as no cache.
   */
  function CheckCache(s: Storage): (r: Option<Cached>)
    ensures r.Some? <==> s.photos.Some? && s.sha.Some? && s.sha.value != ""
    ensures r.Some? ==> r.value == Cached(s.photos.value, s.sha.value)
  {
    if s.photos.Some? && s.sha.Some? && s.sha.value != "" then Some(Cached(s.photos.value, s.sha.value)) else None
  }

  /** cacheData: store the photos and the SHA; checkCache reads them back unless the SHA is empty. */
  function CacheData(photos: seq<Photo>, sha: string): (s: Storage)
    ensures s.photos == Some(photos) && s.sha == Some(sha)
    ensures CheckCache(s) == if sha == "" then None else Some(Cached(photos, sha))
  {
    Storage(Some(photos), Some(sha))
  }

  /** clearCache: remove both entries, so checkCache finds no cache. */
  function ClearCache(): (s: Storage)
    ensures s.photos.None? && s.sha.None?
    ensures CheckCache(s).None?
  {
    Storage(None, None)
  }

  // ---------------------------------------------------------------------------
  // The requests and fetchGalleryData

  /** A fetch: rejected (network failure), or a response with `ok`, `status` and the parsed body. */
  datatype Response<T> = NetworkFailure | Response(ok: bool, status: int, body: T)

  /** The errors fetchGalleryData can throw. */
  datatype FetchError = NetworkError | CommitStatusError(status: int) | ContentsStatusError(status: int)

  /** An element of the commits API list; `sha` may be missing. */
  datatype Commit = Commit(sha: Option<string>)

  /**
   * getLatestCommitSHA: throws on a failed request; otherwise the first
   * commit's SHA, or "" when there is no commit or it has no SHA.
   */
  function LatestCommitSha(response: Response<seq<Commit>>): (r: Result<string, FetchError>)
    ensures response.NetworkFailure? ==> r == Err(NetworkError)
    ensures response.Response? && !response.ok ==> r == Err(CommitStatusError(response.status))
    ensures response.Response? && response.ok ==> r.Ok?
    ensures r.Ok? ==> (r.value == "" <==> |response.body| == 0 || response.body[0].sha.None? || response.body[0].sha.value == "")
    ensures r.Ok? && r.value != "" ==> r.value == response.body[0].sha.value
  {
    match response
    case NetworkFailure => Err(NetworkError)
    case Response(ok, status, commits) =>
      if !ok then Err(CommitStatusError(status))
      else if |commits| > 0 && commits[0].sha.Some? then Ok(commits[0].sha.value)
      else Ok("")
  }

  /** What one fetchGalleryData call returns or throws, the storage after it, and whether it asked for the contents. */
  datatype GalleryLoad = GalleryLoad(result: Result<seq<Photo>, FetchError>, storage: Storage, contentsRequested: bool)

  /** The catch block: the cached photos if a cache exists, otherwise the error rethrown. */
  function Fallback(storage: Storage, error: FetchError): (r: Result<seq<Photo>, FetchError>)
    ensures r.Err? <==> CheckCache(storage).None?
    ensures r.Err? ==> r.error == error
    ensures r.Ok? ==> r.value == storage.photos.value
  {
    match CheckCache(storage)
    case Some(cached) => Ok(cached.photos)
    case None => Err(error)
  }

  /** A cache exists and was stored at the given SHA. */
  predicate CacheHit(storage: Storage, sha: string)
  {
    CheckCache(storage).Some? && CheckCache(storage).value.sha == sha
  }

  /** The error a failed contents request throws. */
  function ContentsError(contents: Response<seq<FileEntry>>): FetchError
  {
    if contents.NetworkFailure? then NetworkError else ContentsStatusError(contents.status)
  }

  /**
   * fetchGalleryData, with the two responses it would receive. A failed
   * commit request goes to the catch block without asking for the contents;
   * a cache stored at the latest SHA is returned as it is; otherwise the
   * contents are requested, a failure goes to the catch block, and a listing
   * is turned into photos that are returned and cached at the latest SHA.
   */
  function FetchGalleryData(storage: Storage, commits: Response<seq<Commit>>, contents: Response<seq<FileEntry>>,
                            owner: string, repo: string, branch: string,
                            leq: (string, string) -> bool, formatDate: string -> string): (r: GalleryLoad)
    requires IsTotalPreorder(leq)
    ensures LatestCommitSha(commits).Err? ==>
      r == GalleryLoad(Fallback(storage, LatestCommitSha(commits).error), storage, false)
    ensures LatestCommitSha(commits).Ok? && CacheHit(storage, LatestCommitSha(commits).value) ==>
      r == GalleryLoad(Ok(storage.photos.value), storage, false)
    ensures (LatestCommitSha(commits).Ok? && !CacheHit(storage, LatestCommitSha(commits).value)
             && (contents.NetworkFailure? || !contents.ok)) ==>
      r == GalleryLoad(Fallback(storage, ContentsError(contents)), storage, true)
    ensures (LatestCommitSha(commits).Ok? && !CacheHit(storage, LatestCommitSha(commits).value)
             && contents.Response? && contents.ok) ==>
      var photos := BuildPhotos(contents.body, owner, repo, branch, leq, formatDate);
      r == GalleryLoad(Ok(photos), CacheData(photos, LatestCommitSha(commits).value), true)
  {
    var cached := CheckCache(storage);
    match LatestCommitSha(commits)
    case Err(e) => GalleryLoad(Fallback(storage, e), storage, false)
    case Ok(latestSha) =>
      if cached.Some? && cached.value.sha == latestSha then
        GalleryLoad(Ok(cached.value.photos), storage, false)
      else
        match contents
        case NetworkFailure => GalleryLoad(Fallback(storage, NetworkError), storage, true)
        case Response(ok, status, listing) =>
          if !ok then
            GalleryLoad(Fallback(storage, ContentsStatusError(status)), storage, true)
          else
            var photos := BuildPhotos(listing, owner, repo, branch, leq, formatDate);
            GalleryLoad(Ok(photos), CacheData(photos, latestSha), true)
  }

  /**
   * Once the latest SHA is known, the contents are skipped exactly when a
   * cache exists at that SHA, and then the cached photos are returned and
   * the storage is left alone.
   */
  lemma CacheHitIffShaMatches(storage: Storage, commits: Response<seq<Commit>>, contents: Response<seq<FileEntry>>,
                              owner: string, repo: string, branch: string,
                              leq: (string, string) -> bool, formatDate: string -> string)
    requires IsTotalPreorder(leq)
    requires LatestCommitSha(commits).Ok?
    ensures var r := FetchGalleryData(storage, commits, contents, owner, repo, branch, leq, formatDate);
      !r.contentsRequested <==>
        CheckCache(storage).Some? && CheckCache(storage).value.sha == LatestCommitSha(commits).value
    ensures var r := FetchGalleryData(storage, commits, contents, owner, repo, branch, leq, formatDate);
      !r.contentsRequested ==> r.result == Ok(storage.photos.value) && r.storage == storage
  {
  }

  /** With no commit SHA ("") the cache is never used as a hit: the contents are always requested. */
  lemma EmptyShaNeverHits(storage: Storage, commits: Response<seq<Commit>>, contents: Response<seq<FileEntry>>,
                          owner: string, repo: string, branch: string,
                          leq: (string, string) -> bool, formatDate: string -> string)
    requires IsTotalPreorder(leq)
    requires LatestCommitSha(commits) == Ok("")
    ensures FetchGalleryData(storage, commits, contents, owner, repo, branch, leq, formatDate).contentsRequested
  {
  }

  /**
   * A call fails only when there is no cache, and every failure of either
   * request falls back to the cached photos, leaving the storage unchanged.
   */
  lemma ErrorsFallBackToCache(storage: Storage, commits: Response<seq<Commit>>, contents: Response<seq<FileEntry>>,
                              owner: string, repo: string, branch: string,
                              leq: (string, string) -> bool, formatDate: string -> string)
    requires IsTotalPreorder(leq)
    ensures var r := FetchGalleryData(storage, commits, contents, owner, repo, branch, leq, formatDate);
      r.result.Err? ==> CheckCache(storage).None? && r.storage == storage
    ensures var r := FetchGalleryData(storage, commits, contents, owner, repo, branch, leq, formatDate);
      LatestCommitSha(commits).Err? ==> r.result == Fallback(storage, LatestCommitSha(commits).error) && r.storage == storage
    ensures var r := FetchGalleryData(storage, commits, contents, owner, repo, branch, leq, formatDate);
      r.contentsRequested && (contents.NetworkFailure? || !contents.ok) ==>
        r.result == Fallback(storage, ContentsError(contents)) && r.storage == storage
    ensures var r := FetchGalleryData(storage, commits, contents, owner, repo, branch, leq, formatDate);
      r.contentsRequested && contents.NetworkFailure? ==> r.result == Fallback(storage, NetworkError)
    ensures var r := FetchGalleryData(storage, commits, contents, owner, repo, branch, leq, formatDate);
      r.contentsRequested && contents.Response? && !contents.ok ==> r.result == Fallback(storage, ContentsStatusError(contents.status))
  {
  }

  /**
   * A cache miss with a listing returns the photos built from that listing
   * and stores them with the latest SHA.
   */
  lemma MissFetchesAndCaches(storage: Storage, commits: Response<seq<Commit>>, contents: Response<seq<FileEntry>>,
                             owner: string, repo: string, branch: string,
                             leq: (string, string) -> bool, formatDate: string -> string)
    requires IsTotalPreorder(leq)
    requires LatestCommitSha(commits).Ok? && !CacheHit(storage, LatestCommitSha(commits).value)
    requires contents.Response? && contents.ok
    ensures var r := FetchGalleryData(storage, commits, contents, owner, repo, branch, leq, formatDate);
      var photos := BuildPhotos(contents.body, owner, repo, branch, leq, formatDate);
      r.contentsRequested && r.result == Ok(photos) && r.storage == CacheData(photos, LatestCommitSha(commits).value)
  {
  }

  /**
   * Whether the first call hits the cache or fetches the listing afresh, it
   * succeeds, and a second call while the latest SHA stays the same and
   * non-empty is a cache hit returning the same photos.
   */
  lemma FreshFetchIsCached(storage: Storage, commits: Response<seq<Commit>>, contents: Response<seq<FileEntry>>,
                           owner: string, repo: string, branch: string,
                           leq: (string, string) -> bool, formatDate: string -> string,
                           contents2: Response<seq<FileEntry>>)
    requires IsTotalPreorder(leq)
    requires LatestCommitSha(commits).Ok? && LatestCommitSha(commits).value != ""
    requires contents.Response? && contents.ok
    ensures var r := FetchGalleryData(storage, commits, contents, owner, repo, branch, leq, formatDate);
      var again := FetchGalleryData(r.storage, commits, contents2, owner, repo, branch, leq, formatDate);
      r.result.Ok? && !again.contentsRequested && again.result == r.result
  {
  }
}
