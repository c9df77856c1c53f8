/** The Douyin glue (douyin.rs): extracting an id from a resolved share URL, normalising titles
    and play URLs, defaulting fields of the JSON answers, naming saved files, the search commands
    and the paging loop that fetches every page of a user's videos. */
module Douyin {
  import opened Wrappers
  import opened Strings
  import opened Paths

  // ---------------------------------------------------------------------------------------
  // The id pattern `/[video|user]+/(?P<aweme_id>\S+)[/|\?]+`

  /** The bracket `[video|user]` is a character class: one of `v i d e o | u s r`. */
  predicate InIdClass(c: char) {
    c == 'v' || c == 'i' || c == 'd' || c == 'e' || c == 'o' || c == '|' || c == 'u' || c == 's' || c == 'r'
  }

  /** The class `[/|\?]`. */
  predicate IsDelim(c: char) {
    c == '/' || c == '|' || c == '?'
  }

  /** The pattern matches `s` from `p` with the named group on `[q, e)`: a `/`, one or more class
      characters, a `/`, one or more non-space characters (the group) and a delimiter at `e`
      (the trailing `+` may take more delimiters, which does not change the group). */
  ghost predicate Matches(s: string, p: nat, q: nat, e: nat) {
    p + 3 <= q < e < |s|
    && s[p] == '/' && s[q - 1] == '/'
    && (forall k :: p < k < q - 1 ==> InIdClass(s[k]))
    && (forall k :: q <= k < e ==> !IsWhiteSpace(s[k]))
    && IsDelim(s[e])
  }

  /** The length of the run of class characters from `i`. */
  function ClassRun(s: string, i: nat): (n: nat)
    requires i <= |s|
    ensures i + n <= |s|
    ensures forall k :: i <= k < i + n ==> InIdClass(s[k])
    ensures i + n == |s| || !InIdClass(s[i + n])
    decreases |s| - i
  {
    if i < |s| && InIdClass(s[i]) then 1 + ClassRun(s, i + 1) else 0
  }

  /** The length of the run of non-space characters from `i`. */
  function NonSpaceRun(s: string, i: nat): (n: nat)
    requires i <= |s|
    ensures i + n <= |s|
    ensures forall k :: i <= k < i + n ==> !IsWhiteSpace(s[k])
    ensures i + n == |s| || IsWhiteSpace(s[i + n])
    decreases |s| - i
  {
    if i < |s| && !IsWhiteSpace(s[i]) then 1 + NonSpaceRun(s, i + 1) else 0
  }

  /** The last delimiter among `s[q + 1 .. q + n)`, as an offset from `q`. */
  function LastDelim(s: string, q: nat, n: nat): (r: Option<nat>)
    requires q + n <= |s|
    ensures r.Some? ==> 1 <= r.value < n && IsDelim(s[q + r.value])
    ensures r.Some? ==> forall k :: q + r.value < k < q + n ==> !IsDelim(s[k])
    ensures r.None? ==> forall k :: q + 1 <= k < q + n ==> !IsDelim(s[k])
    decreases n
  {
    if n <= 1 then None
    else if IsDelim(s[q + n - 1]) then Some(n - 1)
    else LastDelim(s, q, n - 1)
  }

  /** A run of class characters that stops at a non-class character is the maximal run. */
  lemma {:induction false} ClassRunExact(s: string, i: nat, j: nat)
    requires i <= j < |s|
    requires forall k :: i <= k < j ==> InIdClass(s[k])
    requires !InIdClass(s[j])
    ensures ClassRun(s, i) == j - i
    decreases j - i
  {
    if i < j {
      ClassRunExact(s, i + 1, j);
    }
  }

  /** The maximal non-space run from `i` is at least as long as any non-space stretch there. */
  lemma {:induction false} NonSpaceRunAtLeast(s: string, i: nat, j: nat)
    requires i <= j <= |s|
    requires forall k :: i <= k < j ==> !IsWhiteSpace(s[k])
    ensures NonSpaceRun(s, i) >= j - i
    decreases j - i
  {
    if i < j {
      NonSpaceRunAtLeast(s, i + 1, j);
    }
  }

  /** Any match from `p` has its group where the maximal runs put it. */
  lemma MatchShape(s: string, p: nat, q: nat, e: nat)
    requires Matches(s, p, q, e)
    ensures ClassRun(s, p + 1) == q - p - 2
    ensures e < q + NonSpaceRun(s, q)
  {
    ClassRunExact(s, p + 1, q - 1);
    NonSpaceRunAtLeast(s, q, e + 1);
  }

  /** The regex engine's attempt at `p`: the class run is maximal (nothing shorter can be
      followed by `/`), and the greedy group extends to the last delimiter it can leave behind. */
  function MatchAt(s: string, p: nat): (r: Option<(nat, nat)>)
    requires p <= |s|
    ensures r.Some? ==> p < |s|
  {
    if p < |s| && s[p] == '/' then
      var m := ClassRun(s, p + 1);
      if m >= 1 && p + 1 + m < |s| && s[p + 1 + m] == '/' then
        var q := p + 2 + m;
        match LastDelim(s, q, NonSpaceRun(s, q))
        case None => None
        case Some(c) => Some((q, q + c))
      else None
    else None
  }

  /** Wherever the pattern matches, `MatchAt` finds something. */
  lemma MatchFound(s: string, p: nat, q: nat, e: nat)
    requires Matches(s, p, q, e)
    ensures MatchAt(s, p).Some?
  {
    MatchShape(s, p, q, e);
    var m := ClassRun(s, p + 1);
    assert m >= 1 && p + 1 + m < |s| && s[p + 1 + m] == '/';
    assert LastDelim(s, q, NonSpaceRun(s, q)).Some?;
  }

  /** When `MatchAt` finds nothing at `p`, the pattern matches nowhere from `p`. */
  lemma MatchAtNone(s: string, p: nat)
    requires p <= |s| && MatchAt(s, p).None?
    ensures forall q: nat, e: nat :: !Matches(s, p, q, e)
  {
    forall q: nat, e: nat ensures Matches(s, p, q, e) ==> MatchAt(s, p).Some? {
      if Matches(s, p, q, e) {
        MatchFound(s, p, q, e);
      }
    }
  }

  /** What `MatchAt` finds at `p` is a match, and every match from `p` has the same group start
      and a group that ends no later. */
  lemma MatchAtSome(s: string, p: nat, q: nat, e: nat)
    requires p <= |s| && MatchAt(s, p) == Some((q, e))
    ensures Matches(s, p, q, e)
    ensures forall q': nat, e': nat :: Matches(s, p, q', e') ==> q' == q && e' <= e
  {
    MatchAtParts(s, p, q, e);
    MatchAtIsMatch(s, p, q, e);
    MatchAtLongest(s, p, q, e);
  }

  /** The runs behind what `MatchAt` finds. */
  lemma MatchAtParts(s: string, p: nat, q: nat, e: nat)
    requires p <= |s| && MatchAt(s, p) == Some((q, e))
    ensures p < |s| && s[p] == '/' && ClassRun(s, p + 1) >= 1 && q == p + 2 + ClassRun(s, p + 1)
    ensures q - 1 < |s| && s[q - 1] == '/'
    ensures q <= e && LastDelim(s, q, NonSpaceRun(s, q)) == Some(e - q)
  {
  }

  /** The runs `MatchAt` measures make up a match. */
  lemma MatchAtIsMatch(s: string, p: nat, q: nat, e: nat)
    requires p < |s| && s[p] == '/' && ClassRun(s, p + 1) >= 1 && q == p + 2 + ClassRun(s, p + 1)
    requires q - 1 < |s| && s[q - 1] == '/'
    requires q <= e && LastDelim(s, q, NonSpaceRun(s, q)) == Some(e - q)
    ensures Matches(s, p, q, e)
  {
  }

  /** No match from `p` has a group longer than the one `MatchAt` picks. */
  lemma MatchAtLongest(s: string, p: nat, q: nat, e: nat)
    requires p < |s| && q == p + 2 + ClassRun(s, p + 1)
    requires q <= |s| && q <= e && LastDelim(s, q, NonSpaceRun(s, q)) == Some(e - q)
    ensures forall q': nat, e': nat :: Matches(s, p, q', e') ==> q' == q && e' <= e
  {
    forall q': nat, e': nat | Matches(s, p, q', e') ensures q' == q && e' <= e {
      MatchShape(s, p, q', e');
    }
  }

  /** `MatchAt` finds a match from `p` exactly when there is one, and then the one with the
      longest group. */
  lemma MatchAtCorrect(s: string, p: nat)
    requires p <= |s|
    ensures var r := MatchAt(s, p);
      (r.Some? ==> Matches(s, p, r.value.0, r.value.1))
      && (r.Some? ==> forall q: nat, e: nat :: Matches(s, p, q, e) ==> q == r.value.0 && e <= r.value.1)
      && (r.None? ==> forall q: nat, e: nat :: !Matches(s, p, q, e))
  {
    if MatchAt(s, p).Some? {
      var r := MatchAt(s, p).value;
      MatchAtSome(s, p, r.0, r.1);
    } else {
      MatchAtNone(s, p);
    }
  }

  /** The first `k` in `[p, n]` for which `found(k)` holds. */
  function FirstFrom(found: nat -> bool, p: nat, n: nat): (r: Option<nat>)
    requires p <= n
    ensures r.Some? ==> p <= r.value <= n && found(r.value)
    ensures r.Some? ==> forall k: nat :: p <= k < r.value ==> !found(k)
    ensures r.None? ==> forall k: nat :: p <= k <= n ==> !found(k)
    decreases n - p
  {
    if found(p) then Some(p)
    else if p == n then None
    else FirstFrom(found, p + 1, n)
  }

  /** The positions where the engine finds a match. */
  function Hits(s: string): nat -> bool {
    (k: nat) => k <= |s| && MatchAt(s, k).Some?
  }

  /** The first position from `p` on where the engine finds a match. */
  function FindFrom(s: string, p: nat): Option<nat>
    requires p <= |s|
  {
    FirstFrom(Hits(s), p, |s|)
  }

  /** `Regex::captures`: the leftmost match, and at its start the longest group; as
      `(start, group start, group end)`. */
  function Search(s: string): (r: Option<(nat, nat, nat)>)
    ensures r.None? <==> forall p: nat, q: nat, e: nat :: !Matches(s, p, q, e)
    ensures r.Some? ==> Matches(s, r.value.0, r.value.1, r.value.2)
    ensures r.Some? ==> forall p: nat, q: nat, e: nat :: Matches(s, p, q, e) ==>
      r.value.0 < p || (r.value.0 == p && q == r.value.1 && e <= r.value.2)
  {
    match FindFrom(s, 0)
    case None =>
      forall p: nat, q: nat, e: nat ensures !Matches(s, p, q, e) {
        if p <= |s| {
          assert !Hits(s)(p);
          MatchAtCorrect(s, p);
        }
      }
      None
    case Some(p) =>
      assert Hits(s)(p);
      var m := MatchAt(s, p).value;
      MatchAtCorrect(s, p);
      forall p': nat, q: nat, e: nat | Matches(s, p', q, e) ensures p < p' || (p == p' && q == m.0 && e <= m.1) {
        if p' < p {
          assert !Hits(s)(p');
        }
        MatchAtCorrect(s, p');
      }
      Some((p, m.0, m.1))
  }

  /** The text of the named group, if the pattern matches. */
  function Capture(s: string): (r: Option<string>)
    ensures r.None? <==> forall p: nat, q: nat, e: nat :: !Matches(s, p, q, e)
  {
    match Search(s)
    case None => None
    case Some(m) => Some(s[m.1..m.2])
  }

  // ---------------------------------------------------------------------------------------
  // get_id_from_url

  /** The URL with a `?` appended unless it already has one. */
  function WithQueryMark(url: string): (r: string)
    ensures '?' in r
    ensures '?' in url ==> r == url
    ensures '?' !in url ==> r == url + "?"
  {
    if '?' in url then url else url + "?"
  }

  /** The id the pattern yields: the group with every `/` removed, or empty without a match. */
  function IdOf(s: string): (id: string)
    ensures '/' !in id
    ensures Capture(s).None? ==> id == ""
    ensures Capture(s).Some? ==> id == Without(Capture(s).value, '/')
    ensures id == "" <==>
      (Capture(s).None? || forall k :: 0 <= k < |Capture(s).value| ==> Capture(s).value[k] == '/')
  {
    match Capture(s)
    case None => ""
    case Some(g) =>
      WithoutEmpty(g, '/');
      Without(g, '/')
  }

  /** `get_id_from_url`: the caller's URL gets its `?` in place, and the id is read from it. */
  method GetIdFromUrl(url: string) returns (updated: string, id: string)
    ensures updated == WithQueryMark(url)
    ensures id == IdOf(updated)
  {
    updated := url;
    if '?' !in updated {
      updated := updated + "?";
    }
    match Capture(updated)
    case None =>
      id := "";
    case Some(g) =>
      id := Without(g, '/');
  }

  /** The host and path before the `/kind/` segment: after every `/` in it, the run of class
      characters ends inside it, and not on a `/` unless the run is empty, so the pattern cannot
      start there (`https://www.iesdouyin.com/share` is such a text: the run after the last `/`
      is `s`, which `h` ends). */
  ghost predicate NoEarlyMatch(pre: string) {
    forall k :: 0 <= k < |pre| && pre[k] == '/' ==>
      k + 1 + ClassRun(pre, k + 1) < |pre|
      && (ClassRun(pre, k + 1) == 0 || pre[k + 1 + ClassRun(pre, k + 1)] != '/')
  }

  predicate ClassWord(w: string) {
    |w| >= 1 && forall k :: 0 <= k < |w| ==> InIdClass(w[k])
  }

  predicate NonSpace(t: string) {
    forall k :: 0 <= k < |t| ==> !IsWhiteSpace(t[k])
  }

  /** Text with no space and no delimiter, as an id or a query string usually is. */
  predicate PlainText(t: string) {
    NonSpace(t) && forall k :: 0 <= k < |t| ==> !IsDelim(t[k])
  }

  /** The engine finds no match at a `/` inside the prefix. */
  lemma PrefixSlashBlocks(s: string, pre: string, k: nat)
    requires |pre| <= |s| && s[..|pre|] == pre && NoEarlyMatch(pre)
    requires k < |pre| && s[k] == '/'
    ensures MatchAt(s, k).None?
  {
    assert pre[k] == s[k];
    var m := ClassRun(pre, k + 1);
    forall j | k + 1 <= j < k + 1 + m ensures InIdClass(s[j]) {
      assert s[j] == pre[j];
    }
    assert s[k + 1 + m] == pre[k + 1 + m];
    ClassRunExact(s, k + 1, k + 1 + m);
    NoMatchAfterRun(s, k);
  }

  /** A `/` followed by an empty class run, or by one that does not end at a `/`, starts no
      match. */
  lemma NoMatchAfterRun(s: string, k: nat)
    requires k < |s| && s[k] == '/'
    requires var m := ClassRun(s, k + 1); m == 0 || k + 1 + m == |s| || s[k + 1 + m] != '/'
    ensures MatchAt(s, k).None?
  {
  }

  /** Where the leftmost match starts after a prefix that cannot hold one, and no delimiter
      follows a delimiter at `e`, the group is `[q, e)`. */
  lemma CaptureAfterPrefix(s: string, pre: string, q: nat, e: nat)
    requires |pre| <= |s| && s[..|pre|] == pre && NoEarlyMatch(pre)
    requires Matches(s, |pre|, q, e)
    requires forall k :: e < k < |s| ==> !IsDelim(s[k])
    ensures Capture(s) == Some(s[q..e])
  {
    var r := Search(s).value;
    if r.0 < |pre| {
      PrefixSlashBlocks(s, pre, r.0);
      MatchAtCorrect(s, r.0);
    }
    assert r.0 == |pre| && r.1 == q && e <= r.2;
    assert !IsDelim(s[r.2]) || r.2 == e;
  }

  /** The layout of `pre/kind/group?query`. */
  lemma UrlLayout(pre: string, kind: string, group: string, query: string)
    ensures var s := pre + "/" + kind + "/" + group + "?" + query;
      var p := |pre|; var q := p + 2 + |kind|; var e := q + |group|;
      |s| == e + 1 + |query| && s[..p] == pre && s[p] == '/' && s[q - 1] == '/' && s[e] == '?'
      && s[p + 1..q - 1] == kind && s[q..e] == group && s[e + 1..] == query
  {
  }

  /** Laid out as `pre/kind/group?query`, the text matches at the end of `pre` with the group
      on `[q, e)`, and no delimiter follows the `?`. */
  lemma LayoutMatches(s: string, p: nat, q: nat, e: nat, kind: string, group: string, query: string)
    requires ClassWord(kind) && NonSpace(group) && PlainText(query) && |group| >= 1
    requires q == p + 2 + |kind| && e == q + |group| && |s| == e + 1 + |query|
    requires s[p] == '/' && s[q - 1] == '/' && s[e] == '?'
    requires s[p + 1..q - 1] == kind && s[q..e] == group && s[e + 1..] == query
    ensures Matches(s, p, q, e)
    ensures forall k :: e < k < |s| ==> !IsDelim(s[k])
  {
    forall k | p < k < q - 1 ensures InIdClass(s[k]) {
      assert s[k] == s[p + 1..q - 1][k - p - 1];
    }
    forall k | q <= k < e ensures !IsWhiteSpace(s[k]) {
      assert s[k] == s[q..e][k - q];
    }
    forall k | e < k < |s| ensures !IsDelim(s[k]) {
      assert s[k] == s[e + 1..][k - e - 1];
    }
  }

  /** For a resolved URL `pre/kind/group?query`, the group is everything between `/kind/` and
      the `?`, delimiters included, as long as the query has no delimiter of its own. */
  lemma ShareUrlGroup(pre: string, kind: string, group: string, query: string)
    requires NoEarlyMatch(pre) && ClassWord(kind)
    requires |group| >= 1 && NonSpace(group) && PlainText(query)
    ensures Capture(pre + "/" + kind + "/" + group + "?" + query) == Some(group)
  {
    var s := pre + "/" + kind + "/" + group + "?" + query;
    var p := |pre|;
    var q := p + 2 + |kind|;
    var e := q + |group|;
    UrlLayout(pre, kind, group, query);
    LayoutMatches(s, p, q, e, kind, group, query);
    CaptureAfterPrefix(s, pre, q, e);
  }

  lemma PlainHasNoSlash(t: string)
    requires PlainText(t)
    ensures '/' !in t && Without(t, '/') == t
  {
    forall k | 0 <= k < |t| ensures t[k] != '/' {
      assert !IsDelim(t[k]);
    }
    WithoutAbsent(t, '/');
  }

  /** A share URL `…/video/<id>?…` gives `<id>`. */
  lemma ShareUrlId(pre: string, kind: string, id: string, query: string)
    requires NoEarlyMatch(pre) && ClassWord(kind)
    requires |id| >= 1 && PlainText(id) && PlainText(query)
    ensures IdOf(pre + "/" + kind + "/" + id + "?" + query) == id
  {
    ShareUrlGroup(pre, kind, id, query);
    PlainHasNoSlash(id);
  }

  /** A share URL `…/video/<id>/?…` gives `<id>` as well: the group keeps the slash, which is
      then removed. */
  lemma ShareUrlIdTrailingSlash(pre: string, kind: string, id: string, query: string)
    requires NoEarlyMatch(pre) && ClassWord(kind)
    requires |id| >= 1 && PlainText(id) && PlainText(query)
    ensures IdOf(pre + "/" + kind + "/" + (id + "/") + "?" + query) == id
  {
    var group := id + "/";
    assert NonSpace(group) by {
      assert forall k :: 0 <= k < |id| ==> group[k] == id[k];
    }
    ShareUrlGroup(pre, kind, group, query);
    PlainHasNoSlash(id);
    WithoutAppend(id, "/", '/');
  }

  /** A `https://<host>/share` prefix cannot hold the start of a match when the host has no
      `/` and does not start with a class character. */
  lemma SharePrefix(host: string)
    requires |host| >= 1 && '/' !in host && !InIdClass(host[0])
    ensures NoEarlyMatch("https://" + host + "/share")
  {
    var pre := "https://" + host + "/share";
    var n := 8 + |host|;
    forall k | 0 <= k < |pre| && pre[k] == '/'
      ensures k + 1 + ClassRun(pre, k + 1) < |pre|
        && (ClassRun(pre, k + 1) == 0 || pre[k + 1 + ClassRun(pre, k + 1)] != '/')
    {
      if k < 8 {
        assert k == 6 || k == 7;
        assert pre[7] == '/' && pre[8] == host[0];
        ClassRunExact(pre, k + 1, k + 1);
      } else if k < n {
        assert false;
      } else {
        assert pre[n + 1] == 's' && pre[n + 2] == 'h';
        ClassRunExact(pre, n + 1, n + 2);
      }
    }
  }

  /** The host and `/share` path of the share pages that short links resolve to. */
  const SharePage: string := "https://www.iesdouyin.com/share"

  lemma SharePageParts()
    ensures SharePage == "https://" + "www.iesdouyin.com" + "/share"
  {
  }

  /** The share page prefix cannot hold the start of a match. */
  lemma SharePagePrefix()
    ensures NoEarlyMatch(SharePage)
  {
    SharePrefix("www.iesdouyin.com");
    SharePageParts();
  }

  /** How a URL `<pre>/video/<id>/?<query>` splits into the parts `ShareUrlIdTrailingSlash`
      names. */
  lemma VideoPageLayout(pre: string, id: string, query: string)
    ensures var url := pre + "/video/" + id + "/?" + query;
      url == pre + "/" + "video" + "/" + (id + "/") + "?" + query && '?' in url
  {
    var url := pre + "/video/" + id + "/?" + query;
    assert url[|pre| + 7 + |id| + 1] == '?';
  }

  /** A share page URL as the short link resolves to, `/share/video/<id>/?<query>`, gives the
      id. */
  lemma SharePageId(id: string, query: string)
    requires |id| >= 1 && PlainText(id) && PlainText(query)
    ensures IdOf(WithQueryMark(SharePage + "/video/" + id + "/?" + query)) == id
  {
    SharePagePrefix();
    assert ClassWord("video");
    VideoPageLayout(SharePage, id, query);
    ShareUrlIdTrailingSlash(SharePage, "video", id, query);
  }

  /** A group made only of slashes matches, yet yields the empty id: `…/video//?` gives "". */
  lemma SlashOnlyGroup(pre: string, kind: string)
    requires NoEarlyMatch(pre) && ClassWord(kind)
    ensures Capture(pre + "/" + kind + "/" + "/" + "?" + "") == Some("/")
    ensures IdOf(pre + "/" + kind + "/" + "/" + "?" + "") == ""
  {
    ShareUrlGroup(pre, kind, "/", "");
    assert Without("/", '/') == [];
  }

  // ---------------------------------------------------------------------------------------
  // Titles, URLs and save paths

  const UntitledSingle: string := "无标题: "
  const UntitledList: string := "无标题"

  /** The title of a single search: quotes removed, cut before the first `@`, and the fallback
      `无标题: <id>` when nothing is left. */
  function SingleTitle(shareTitle: string, videoId: string): (t: string)
    ensures t != []
    ensures var clean := Without(shareTitle, '"');
      if clean == [] || clean[0] == '@' then t == UntitledSingle + videoId
      else (|t| <= |clean| && t == clean[..|t|] && '@' !in t && '"' !in t
        && (|t| == |clean| || clean[|t|] == '@'))
  {
    var clean := Without(shareTitle, '"');
    var cut := BeforeFirst(clean, '@');
    if |cut| == 0 then UntitledSingle + videoId else cut
  }

  /** The title of a list item: quotes removed, cut before the first `#`, then before the first
      `@`, and the fallback `无标题<id>` when nothing is left. */
  function ListTitle(desc: string, videoId: string): (t: string)
    ensures t != []
    ensures var clean := Without(desc, '"');
      if clean == [] || clean[0] == '#' || clean[0] == '@' then t == UntitledList + videoId
      else (|t| <= |clean| && t == clean[..|t|] && '#' !in t && '@' !in t && '"' !in t
        && (|t| == |clean| || clean[|t|] == '#' || clean[|t|] == '@'))
  {
    var clean := Without(desc, '"');
    var beforeTag := BeforeFirst(clean, '#');
    var cut := BeforeFirst(beforeTag, '@');
    assert cut == clean[..|cut|];
    if |cut| == 0 then UntitledList + videoId else cut
  }

  /** A title that did not fall back is left as it is by normalising it again. */
  lemma SingleTitleStable(shareTitle: string, videoId: string, otherId: string)
    requires var clean := Without(shareTitle, '"'); clean != [] && clean[0] != '@'
    ensures SingleTitle(SingleTitle(shareTitle, videoId), otherId) == SingleTitle(shareTitle, videoId)
  {
    var t := SingleTitle(shareTitle, videoId);
    WithoutAbsent(t, '"');
    assert BeforeFirst(t, '@') == t;
  }

  lemma ListTitleStable(desc: string, videoId: string, otherId: string)
    requires var clean := Without(desc, '"'); clean != [] && clean[0] != '#' && clean[0] != '@'
    ensures ListTitle(ListTitle(desc, videoId), otherId) == ListTitle(desc, videoId)
  {
    var t := ListTitle(desc, videoId);
    WithoutAbsent(t, '"');
    assert BeforeFirst(t, '#') == t;
    assert BeforeFirst(t, '@') == t;
  }

  /** The play URL of a single search: quotes removed, then `playwm` (the watermarked stream)
      replaced by `play`, then `ratio=720p` by `ratio=1080p`, each in one left-to-right pass;
      the final quote removal finds nothing left to remove. */
  function PlayUrl(raw: string): (u: string)
    ensures '"' !in u
    ensures (forall i: nat :: !OccursAt(Without(raw, '"'), "playwm", i) && !OccursAt(Without(raw, '"'), "ratio=720p", i))
      ==> u == Without(raw, '"')
  {
    var clean := Without(raw, '"');
    var unmarked := ReplaceAll(clean, "playwm", "play");
    var sharp := ReplaceAll(unmarked, "ratio=720p", "ratio=1080p");
    PlayUrlFacts(clean, unmarked, sharp);
    Without(sharp, '"')
  }

  lemma PlayUrlFacts(clean: string, unmarked: string, sharp: string)
    requires '"' !in clean
    requires unmarked == ReplaceAll(clean, "playwm", "play")
    requires sharp == ReplaceAll(unmarked, "ratio=720p", "ratio=1080p")
    ensures Without(sharp, '"') == sharp
    ensures (forall i: nat :: !OccursAt(clean, "playwm", i) && !OccursAt(clean, "ratio=720p", i)) ==> sharp == clean
  {
    ReplaceKeepsAbsent(clean, "playwm", "play", '"');
    ReplaceKeepsAbsent(unmarked, "ratio=720p", "ratio=1080p", '"');
    WithoutAbsent(sharp, '"');
    if forall i: nat :: !OccursAt(clean, "playwm", i) && !OccursAt(clean, "ratio=720p", i) {
      ReplaceAbsent(clean, "playwm", "play");
      ReplaceAbsent(clean, "ratio=720p", "ratio=1080p");
    }
  }

  /** The URL is the two rewrites applied to the unquoted text. */
  lemma PlayUrlIsRewrite(raw: string)
    ensures PlayUrl(raw) == ReplaceAll(ReplaceAll(Without(raw, '"'), "playwm", "play"), "ratio=720p", "ratio=1080p")
  {
    var clean := Without(raw, '"');
    PlayUrlFacts(clean, ReplaceAll(clean, "playwm", "play"),
      ReplaceAll(ReplaceAll(clean, "playwm", "play"), "ratio=720p", "ratio=1080p"));
  }

  /** Each rewrite is `split` then `join`, the way `str::replace` is defined. */
  lemma PlayUrlBySplitJoin(raw: string)
    ensures PlayUrl(raw) == Join(Split(Join(Split(Without(raw, '"'), "playwm"), "play"), "ratio=720p"), "ratio=1080p")
  {
    var clean := Without(raw, '"');
    var unmarked := ReplaceAll(clean, "playwm", "play");
    PlayUrlIsRewrite(raw);
    ReplaceAllIsJoinOfSplit(clean, "playwm", "play");
    ReplaceAllIsJoinOfSplit(unmarked, "ratio=720p", "ratio=1080p");
  }

  /** The pass does not rescan what it produced: `playwmwm` becomes `playwm`. */
  lemma PlayUrlSinglePass(s: string)
    requires s == "playwm" + "wm"
    ensures PlayUrl(s) == "playwm"
  {
    PlayUrlIsRewrite(s);
    assert '"' !in s;
    WithoutAbsent(s, '"');
    assert s[..6] == "playwm" && s[6..] == "wm";
    assert ReplaceAll(s[6..], "playwm", "play") == "wm";
    assert ReplaceAll(s, "playwm", "play") == "play" + "wm";
    assert ReplaceAll("playwm", "ratio=720p", "ratio=1080p") == "playwm";
  }

  /** The file name for a title: the text before its first `#`, without the white space at
      either end. */
  function SaveName(title: string): (name: string)
    ensures '#' !in name
    ensures |name| > 0 ==> !IsWhiteSpace(name[0]) && !IsWhiteSpace(name[|name| - 1])
    ensures InnerSlice(BeforeFirst(title, '#'), name)
  {
    var cut := BeforeFirst(title, '#');
    TrimKeepsAbsent(cut, '#');
    Trim(cut)
  }

  /** `get_save_path`: the save directory joined with the title's name, plus `.mp4`. A name
      that starts with `/` replaces the directory, as `Path::join` does. */
  function GetSavePath(saveDir: string, title: string): (r: string)
    ensures |r| >= 4 && r[|r| - 4..] == ".mp4"
    ensures var name := SaveName(title);
      (name == [] || name[0] != '/') ==> |saveDir| <= |r| && r[..|saveDir|] == saveDir
    ensures var name := SaveName(title);
      name != [] && name[0] == '/' ==> r == name + ".mp4"
    ensures var name := SaveName(title);
      |name| + 4 <= |r| && r[|r| - 4 - |name|..|r| - 4] == name
    ensures '#' !in FileName(r)
    ensures var name := SaveName(title);
      |name| > 0 && '/' !in name ==> FileName(r) == name + ".mp4" && FileStem(FileName(r)) == name
  {
    var name := SaveName(title);
    SavePathFacts(saveDir, name);
    JoinPath(saveDir, name) + ".mp4"
  }

  lemma SavePathFacts(saveDir: string, name: string)
    requires '#' !in name
    ensures var r := JoinPath(saveDir, name) + ".mp4";
      |r| >= 4 && r[|r| - 4..] == ".mp4"
      && ((name == [] || name[0] != '/') ==> |saveDir| <= |r| && r[..|saveDir|] == saveDir)
      && (name != [] && name[0] == '/' ==> r == name + ".mp4")
      && |name| + 4 <= |r| && r[|r| - 4 - |name|..|r| - 4] == name
      && '#' !in FileName(r)
      && (|name| > 0 && '/' !in name ==> FileName(r) == name + ".mp4" && FileStem(FileName(r)) == name)
  {
    SavePathShape(saveDir, name);
    SavePathFileName(saveDir, name);
    SavePathStem(saveDir, name);
  }

  /** Making a name of a title that is already a name changes nothing. */
  lemma SaveNameIdempotent(title: string)
    ensures SaveName(SaveName(title)) == SaveName(title)
  {
    var name := SaveName(title);
    assert BeforeFirst(name, '#') == name;
    TrimTrimmed(name);
  }

  /** A name without `/` is the file name of its save path, and the stem of that file name. */
  lemma SavePathStem(saveDir: string, name: string)
    ensures |name| > 0 && '/' !in name ==>
      FileName(JoinPath(saveDir, name) + ".mp4") == name + ".mp4" && FileStem(name + ".mp4") == name
  {
    if |name| > 0 && '/' !in name {
      SavePathStemOf(saveDir, name);
    }
  }

  lemma SavePathStemOf(saveDir: string, name: string)
    requires |name| > 0 && '/' !in name
    ensures FileName(JoinPath(saveDir, name) + ".mp4") == name + ".mp4"
    ensures FileStem(name + ".mp4") == name
  {
    MP4Stem(name);
    var t := name + ".mp4";
    assert '/' !in t by {
      forall k | 0 <= k < |t| ensures t[k] != '/' {
        if k < |name| { assert t[k] == name[k]; }
      }
    }
    var j := JoinPath(saveDir, name);
    if |saveDir| > 0 && saveDir[|saveDir| - 1] != '/' {
      var d := saveDir + "/";
      assert j == d + name;
      assert j + ".mp4" == d + t;
      assert d[|d| - 1] == '/';
      FileNameAfterSeparator(d, t);
    } else {
      assert j == saveDir + name;
      assert j + ".mp4" == saveDir + t;
      FileNameAfterSeparator(saveDir, t);
    }
  }

  lemma MP4Stem(name: string)
    requires |name| > 0
    ensures FileStem(name + ".mp4") == name
  {
    assert IsExtension(".mp4");
    StemOfStemAndExtension(name, ".mp4");
  }

  lemma SavePathShape(saveDir: string, name: string)
    ensures var r := JoinPath(saveDir, name) + ".mp4";
      |r| >= 4 && r[|r| - 4..] == ".mp4"
      && ((name == [] || name[0] != '/') ==> |saveDir| <= |r| && r[..|saveDir|] == saveDir)
      && (name != [] && name[0] == '/' ==> r == name + ".mp4")
      && |name| + 4 <= |r| && r[|r| - 4 - |name|..|r| - 4] == name
  {
    var j := JoinPath(saveDir, name);
    var r := j + ".mp4";
    assert r[|r| - 4..] == ".mp4";
    assert r[..|j|] == j;
    if |name| > 0 && name[0] == '/' {
      assert j == name;
    } else if |saveDir| > 0 && saveDir[|saveDir| - 1] != '/' {
      assert j == saveDir + "/" + name;
      assert j[|j| - |name|..] == name;
      assert j[..|saveDir|] == saveDir;
    } else {
      assert j == saveDir + name;
      assert j[|j| - |name|..] == name;
      assert j[..|saveDir|] == saveDir;
    }
    assert r[|r| - 4 - |name|..|r| - 4] == j[|j| - |name|..];
  }

  lemma SavePathFileName(saveDir: string, name: string)
    requires '#' !in name
    ensures '#' !in FileName(JoinPath(saveDir, name) + ".mp4")
  {
    var t := name + ".mp4";
    assert '#' !in t;
    var r := JoinPath(saveDir, name) + ".mp4";
    if |name| > 0 && name[0] == '/' {
      assert r == t;
      FileNameSplit(t);
    } else if |saveDir| > 0 && saveDir[|saveDir| - 1] != '/' {
      assert r == (saveDir + "/") + t;
      FileNameWithin(saveDir + "/", t);
    } else if |saveDir| > 0 {
      assert r == saveDir + t;
      FileNameWithin(saveDir, t);
    } else {
      assert r == t;
      FileNameSplit(t);
    }
  }

  // ---------------------------------------------------------------------------------------
  // Results and the JSON fields they are built from

  type u16 = x: int | 0 <= x < 0x1_0000
  type u64 = x: int | 0 <= x < 0x1_0000_0000_0000_0000

  datatype UserInfo = UserInfo(nickname: string, uid: string, avatarUrl: string, videoCount: u16)
  datatype VideoItem = VideoItem(videoId: string, videoTitle: string, videoUrl: string, coverUrl: string)
  datatype VideoInfo = VideoInfo(maxCursor: u64, hasMore: bool, items: seq<VideoItem>)
  datatype UserVideoInfo = UserVideoInfo(userInfo: UserInfo, videoInfo: VideoInfo)

  /** The fields of `item_list[0]` as `Value::to_string` renders them (a missing one as `null`). */
  datatype ItemFields = ItemFields(
    awemeId: string, shareTitle: string, playUrl: string, coverUrl: string,
    authorUid: string, authorName: string, authorAvatar: string)

  /** The answer of the user-info API: the rendered nickname and avatar, and `aweme_count` as
      `as_u64` reads it (`None` when missing or not an unsigned integer). */
  datatype UserJson = UserJson(nickname: string, awemeCount: Option<u64>, avatarUrl: string)

  /** One entry of `aweme_list`, its fields rendered as text. */
  datatype ListEntry = ListEntry(awemeId: string, desc: string, playUrl: string, coverUrl: string)

  /** The answer of the video-list API: `max_cursor` and `has_more` when present with the right
      type, and `aweme_list` when it is an array. */
  datatype ListJson = ListJson(maxCursor: Option<u64>, hasMore: Option<bool>, awemeList: Option<seq<ListEntry>>)

  /** The item a single search returns. */
  function SingleItem(f: ItemFields): (it: VideoItem)
    ensures it.videoId == Without(f.awemeId, '"') && '"' !in it.videoId
    ensures it.videoTitle == SingleTitle(f.shareTitle, it.videoId)
    ensures it.videoUrl == PlayUrl(f.playUrl)
    ensures it.coverUrl == Without(f.coverUrl, '"')
  {
    var id := Without(f.awemeId, '"');
    VideoItem(id, SingleTitle(f.shareTitle, id), PlayUrl(f.playUrl), Without(f.coverUrl, '"'))
  }

  /** The result of a single search: the author with a count of 1, one item, cursor 0 and no
      further pages. */
  function SingleResult(f: ItemFields): (r: UserVideoInfo)
    ensures r.userInfo == UserInfo(Without(f.authorName, '"'), Without(f.authorUid, '"'), Without(f.authorAvatar, '"'), 1)
    ensures r.videoInfo == VideoInfo(0, false, [SingleItem(f)])
  {
    var user := UserInfo(Without(f.authorName, '"'), Without(f.authorUid, '"'), Without(f.authorAvatar, '"'), 1);
    UserVideoInfo(user, VideoInfo(0, false, [SingleItem(f)]))
  }

  /** `get_user_info` after the fetch: `aweme_count` defaults to 0 and is cut to 16 bits. */
  function UserInfoFrom(uid: string, j: UserJson): (u: UserInfo)
    ensures u.uid == uid
    ensures u.nickname == Without(j.nickname, '"') && u.avatarUrl == Without(j.avatarUrl, '"')
    ensures j.awemeCount.None? ==> u.videoCount == 0
    ensures j.awemeCount.Some? ==> (j.awemeCount.value - u.videoCount) % 0x1_0000 == 0
    ensures j.awemeCount.Some? && j.awemeCount.value < 0x1_0000 ==> u.videoCount == j.awemeCount.value
  {
    var count := match j.awemeCount case None => 0 case Some(n) => n % 0x1_0000;
    UserInfo(Without(j.nickname, '"'), uid, Without(j.avatarUrl, '"'), count)
  }

  /** One list entry as an item: the play URL only loses its quotes (it is not rewritten). */
  function ListItem(e: ListEntry): (it: VideoItem)
    ensures it.videoId == Without(e.awemeId, '"') && '"' !in it.videoId
    ensures it.videoTitle == ListTitle(e.desc, it.videoId)
    ensures it.videoUrl == Without(e.playUrl, '"') && it.coverUrl == Without(e.coverUrl, '"')
  {
    var id := Without(e.awemeId, '"');
    VideoItem(id, ListTitle(e.desc, id), Without(e.playUrl, '"'), Without(e.coverUrl, '"'))
  }

  /** `get_user_video_list` after the fetch: `max_cursor` defaults to 0 and `has_more` to false,
      and they are kept when the list is missing or empty; otherwise one item per entry, in
      order. */
  function VideoListFrom(j: ListJson): (v: VideoInfo)
    ensures j.maxCursor.None? ==> v.maxCursor == 0
    ensures j.maxCursor.Some? ==> v.maxCursor == j.maxCursor.value
    ensures v.hasMore <==> j.hasMore == Some(true)
    ensures j.awemeList.None? ==> v.items == []
    ensures j.awemeList.Some? ==> (|v.items| == |j.awemeList.value|
      && forall i :: 0 <= i < |v.items| ==> v.items[i] == ListItem(j.awemeList.value[i]))
  {
    var maxCursor := match j.maxCursor case Some(c) => c case None => 0;
    var hasMore := match j.hasMore case Some(b) => b case None => false;
    match j.awemeList
    case None => VideoInfo(maxCursor, hasMore, [])
    case Some(list) =>
      if |list| == 0 then VideoInfo(maxCursor, hasMore, [])
      else VideoInfo(maxCursor, hasMore, seq(|list|, i requires 0 <= i < |list| => ListItem(list[i])))
  }

  // ---------------------------------------------------------------------------------------
  // The search commands

  datatype DouyinError =
    | SystemError
    | VideoInfoNotFoundError
    | NetworkError
    | GetDataError
    | DownloadVideoError
    | GetUserInfoFailureError
    | UserInfoNotFoundError

  /** The text each error shows to the user. */
  function Message(e: DouyinError): (m: string)
    ensures |m| > 0
  {
    match e
    case SystemError => "系统错误"
    case VideoInfoNotFoundError => "未找到视频"
    case NetworkError => "网络错误"
    case GetDataError => "获取数据失败"
    case DownloadVideoError => "下载视频失败"
    case GetUserInfoFailureError => "获取用户信息失败"
    case UserInfoNotFoundError => "未找到用户"
  }

  /** The commands return only the message, and no two errors share one. */
  lemma MessagesDistinct(a: DouyinError, b: DouyinError)
    ensures Message(a) == Message(b) ==> a == b
  {
  }

  /** How a request to an API ends: the decoded answer, a failed send, or a body that is not JSON. */
  datatype Fetch<T> = Fetched(value: T) | SendFailed | BadJson

  function ItemInfoUrl(id: string): string {
    "https://www.iesdouyin.com/web/api/v2/aweme/iteminfo/?item_ids=" + id
  }

  function UserInfoUrl(uid: string): string {
    "https://www.iesdouyin.com/web/api/v2/user/info/?sec_uid=" + uid
  }

  function VideoListUrl(uid: string, count: u16, cursor: u64): string {
    "https://www.iesdouyin.com/web/api/v2/aweme/post/?sec_uid=" + uid + "&count=" + Decimal(count)
      + "&max_cursor=" + Decimal(cursor)
  }

  /** `douyin_single_search`: `resolved` is the URL the share link redirects to (`None` when the
      request fails) and `api` answers the item-info request. */
  function SingleSearch(resolved: Option<string>, api: string -> Fetch<ItemFields>): (r: Result<UserVideoInfo, DouyinError>)
    ensures resolved.None? ==> r == Err(NetworkError)
    ensures resolved.Some? && IdOf(WithQueryMark(resolved.value)) == "" ==> r == Err(VideoInfoNotFoundError)
    ensures r.Ok? <==> (resolved.Some? && IdOf(WithQueryMark(resolved.value)) != ""
      && api(ItemInfoUrl(IdOf(WithQueryMark(resolved.value)))).Fetched?)
    ensures r.Ok? ==> r.value == SingleResult(api(ItemInfoUrl(IdOf(WithQueryMark(resolved.value)))).value)
    ensures r.Err? && resolved.Some? && IdOf(WithQueryMark(resolved.value)) != "" ==>
      r.error == (if api(ItemInfoUrl(IdOf(WithQueryMark(resolved.value)))).SendFailed? then NetworkError else GetDataError)
  {
    match resolved
    case None => Err(NetworkError)
    case Some(url) =>
      var id := IdOf(WithQueryMark(url));
      if id == "" then Err(VideoInfoNotFoundError)
      else
        match api(ItemInfoUrl(id))
        case SendFailed => Err(NetworkError)
        case BadJson => Err(GetDataError)
        case Fetched(f) => Ok(SingleResult(f))
  }

  /** `douyin_muplit_search`: the user is looked up under the id from the resolved home URL, and
      the first page of videos is asked for with cursor 0 and the user's video count. */
  function MultiSearch(resolved: Option<string>, userApi: string -> Option<UserJson>, listApi: string -> Option<ListJson>)
    : (r: Result<UserVideoInfo, DouyinError>)
    ensures resolved.None? ==> r == Err(NetworkError)
    ensures resolved.Some? && IdOf(WithQueryMark(resolved.value)) == "" ==> r == Err(UserInfoNotFoundError)
    ensures resolved.Some? && IdOf(WithQueryMark(resolved.value)) != "" ==>
      var uid := IdOf(WithQueryMark(resolved.value));
      match userApi(UserInfoUrl(uid))
      case None => r == Err(GetUserInfoFailureError)
      case Some(uj) =>
        var user := UserInfoFrom(uid, uj);
        match listApi(VideoListUrl(uid, user.videoCount, 0))
        case None => r == Err(VideoInfoNotFoundError)
        case Some(lj) => r == Ok(UserVideoInfo(user, VideoListFrom(lj)))
    ensures r.Ok? ==> r.value.userInfo.uid != "" && '/' !in r.value.userInfo.uid
  {
    match resolved
    case None => Err(NetworkError)
    case Some(url) =>
      var uid := IdOf(WithQueryMark(url));
      if uid == "" then Err(UserInfoNotFoundError)
      else
        match userApi(UserInfoUrl(uid))
        case None => Err(GetUserInfoFailureError)
        case Some(uj) =>
          var user := UserInfoFrom(uid, uj);
          match listApi(VideoListUrl(uid, user.videoCount, 0))
          case None => Err(VideoInfoNotFoundError)
          case Some(lj) => Ok(UserVideoInfo(user, VideoListFrom(lj)))
  }

  // ---------------------------------------------------------------------------------------
  // douyin_get_all_video_info

  /** How one page request ends. */
  datatype PageOutcome = Success(page: VideoInfo) | Failure

  function Failures(os: seq<PageOutcome>): nat
    decreases |os|
  {
    if |os| == 0 then 0 else Failures(os[..|os| - 1]) + (if os[|os| - 1].Failure? then 1 else 0)
  }

  /** The pages of the successful requests, in order. */
  function SuccessPages(os: seq<PageOutcome>): seq<VideoInfo>
    decreases |os|
  {
    if |os| == 0 then []
    else SuccessPages(os[..|os| - 1]) + (if os[|os| - 1].Success? then [os[|os| - 1].page] else [])
  }

  /** The cursor after an outcome: a page's `max_cursor`, or the same cursor after a failure. */
  function NextCursor(cursor: u64, o: PageOutcome): u64 {
    if o.Success? then o.page.maxCursor else cursor
  }

  /** The loop ends at request `k`: a page without more to come, or the fifth failure. */
  predicate IsStop(os: seq<PageOutcome>, k: nat)
    requires k < |os|
  {
    (os[k].Success? && !os[k].page.hasMore) || (os[k].Failure? && Failures(os[..k + 1]) == 5)
  }

  lemma FailuresStep(os: seq<PageOutcome>, i: nat)
    requires i < |os|
    ensures Failures(os[..i + 1]) == Failures(os[..i]) + (if os[i].Failure? then 1 else 0)
    ensures SuccessPages(os[..i + 1]) == SuccessPages(os[..i]) + (if os[i].Success? then [os[i].page] else [])
  {
    assert os[..i + 1][..i] == os[..i];
  }

  /** The loop ends at none of the first `n` requests. */
  predicate NoStopBefore(os: seq<PageOutcome>, n: nat)
    requires n <= |os|
  {
    forall k :: 0 <= k < n ==> !IsStop(os, k)
  }

  /** `cursors` are the cursors of the first requests: the first is `start`, and each later one
      is the cursor the outcome of the request before it left. */
  predicate CursorChain(start: u64, os: seq<PageOutcome>, cursors: seq<u64>) {
    |cursors| <= |os|
    && (|cursors| > 0 ==> cursors[0] == start)
    && forall k :: 0 < k < |cursors| ==> cursors[k] == NextCursor(cursors[k - 1], os[k - 1])
  }

  lemma ChainExtend(start: u64, os: seq<PageOutcome>, cursors: seq<u64>, c: u64)
    requires CursorChain(start, os, cursors) && |cursors| < |os|
    requires c == if |cursors| == 0 then start else NextCursor(cursors[|cursors| - 1], os[|cursors| - 1])
    ensures CursorChain(start, os, cursors + [c])
  {
    var cs := cursors + [c];
    forall k | 0 < k < |cs| ensures cs[k] == NextCursor(cs[k - 1], os[k - 1]) {
      if k < |cursors| {
        assert cs[k] == cursors[k] && cs[k - 1] == cursors[k - 1];
      }
    }
  }

  /** The paging loop of `douyin_get_all_video_info`, where the `i`-th request (for the cursor
      `cursors[i]`) ends as `outcomes[i]`. A retry budget of 3 is spent one per failure and ends
      the loop when a failure finds it below 0; a success never refills it. The loop runs only
      as long as the answers say there is more, hence the precondition that the outcomes
      contain a stopping point. */
  method AllVideoInfo(startCursor: u64, outcomes: seq<PageOutcome>) returns (emitted: seq<VideoInfo>, cursors: seq<u64>)
    requires exists k :: 0 <= k < |outcomes| && IsStop(outcomes, k)
    ensures 1 <= |cursors| <= |outcomes|
    ensures IsStop(outcomes, |cursors| - 1) && NoStopBefore(outcomes, |cursors| - 1)
    ensures CursorChain(startCursor, outcomes, cursors)
    ensures emitted == SuccessPages(outcomes[..|cursors|])
    ensures Failures(outcomes[..|cursors|]) <= 5
    ensures |cursors| == |emitted| + Failures(outcomes[..|cursors|])
  {
    ghost var stop :| 0 <= stop < |outcomes| && IsStop(outcomes, stop);
    var cursor := startCursor;
    var retryNum := 3;
    emitted, cursors := [], [];
    ghost var fails := 0;
    var i := 0;
    while true
      invariant 0 <= i <= stop && |cursors| == i
      invariant NoStopBefore(outcomes, i)
      invariant CursorChain(startCursor, outcomes, cursors)
      invariant cursor == if i == 0 then startCursor else NextCursor(cursors[i - 1], outcomes[i - 1])
      invariant fails == Failures(outcomes[..i]) && fails <= 4 && retryNum == 3 - fails
      invariant emitted == SuccessPages(outcomes[..i]) && |emitted| + fails == i
      decreases stop - i
    {
      ChainExtend(startCursor, outcomes, cursors, cursor);
      cursors := cursors + [cursor];
      FailuresStep(outcomes, i);
      var outcome := outcomes[i];
      i := i + 1;
      match outcome {
        case Success(page) =>
          cursor := page.maxCursor;
          emitted := emitted + [page];
          if !page.hasMore {
            break;
          }
        case Failure =>
          fails := fails + 1;
          if retryNum < 0 {
            break;
          }
          retryNum := retryNum - 1;
      }
    }
  }

  /** Five failures in a row end the loop at the fifth. */
  lemma FiveFailuresStop(os: seq<PageOutcome>)
    requires |os| >= 5 && forall k :: 0 <= k < 5 ==> os[k].Failure?
    ensures IsStop(os, 4) && forall k :: 0 <= k < 4 ==> !IsStop(os, k)
  {
    FailuresStep(os, 0);
    FailuresStep(os, 1);
    FailuresStep(os, 2);
    FailuresStep(os, 3);
    FailuresStep(os, 4);
  }

  /** A success in between does not refill the budget: the fifth failure overall still stops. */
  lemma BudgetNotRefilled(more: VideoInfo)
    requires more.hasMore
    ensures var os := [Failure, Failure, Success(more), Failure, Failure, Failure];
      IsStop(os, 5) && forall k :: 0 <= k < 5 ==> !IsStop(os, k)
  {
    var os := [Failure, Failure, Success(more), Failure, Failure, Failure];
    FailuresStep(os, 0);
    FailuresStep(os, 1);
    FailuresStep(os, 2);
    FailuresStep(os, 3);
    FailuresStep(os, 4);
    FailuresStep(os, 5);
  }
}
