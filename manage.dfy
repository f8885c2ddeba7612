/**
 * The management page (manage.js): the theme cycle and preference merge,
 * the edits it makes to the persisted selector map (restore one entry,
 * clear one site, clear everything) and the listing it renders from that
 * map, one card per site in ascending order.
 */
module Manage {
  import opened Wrappers
  import opened Util
  import opened Store

  // ---- theme ----

  /** The cycle the theme button walks through (manage.js:61). */
  const Themes: seq<string> := ["auto", "light", "dark"]

  /** The theme after `current`: the next one in the cycle, `auto` for an unknown one. */
  function NextTheme(current: string): (r: string)
    ensures r in Themes
    ensures current !in Themes ==> r == "auto"
  {
    Themes[(IndexOf(Themes, current) + 1) % |Themes|]
  }

  /** auto goes to light, light to dark and dark back to auto. */
  lemma ThemeCycle()
    ensures NextTheme("auto") == "light"
    ensures NextTheme("light") == "dark"
    ensures NextTheme("dark") == "auto"
  {
    assert Themes[0] == "auto" && Themes[1] == "light" && Themes[2] == "dark";
    assert IndexOf(Themes, "light") == 1 by {
      assert Themes[0] != "light";
    }
    assert IndexOf(Themes, "dark") == 2 by {
      assert Themes[0] != "dark" && Themes[1] != "dark";
    }
  }

  /** From any known theme, three presses come back and one press always changes it. */
  lemma ThemePeriod(t: string)
    requires t in Themes
    ensures NextTheme(NextTheme(NextTheme(t))) == t
    ensures NextTheme(t) != t
  {
    ThemeCycle();
  }

  /** The theme `initTheme` reads from the stored preferences: a truthy `theme`, else `auto`. */
  function ThemeFromPrefs(prefs: Prefs): (r: string)
    ensures r != ""
    ensures "theme" !in prefs ==> r == "auto"
    ensures "theme" in prefs && prefs["theme"].Text? && prefs["theme"].text != "" ==> r == prefs["theme"].text
    ensures "theme" in prefs && (prefs["theme"] == Text("") || prefs["theme"] == Flag(false)) ==> r == "auto"
  {
    if "theme" !in prefs then "auto"
    else
      match prefs["theme"]
      case Text(s) => if s != "" then s else "auto"
      case Flag(b) => if b then "true" else "auto"
  }

  /** `{ ...current, ...update }` (manage.js:47-48). */
  function MergePrefs(current: Prefs, update: Prefs): (r: Prefs)
    ensures r.Keys == current.Keys + update.Keys
    ensures forall k | k in update :: r[k] == update[k]
    ensures forall k | k in current && k !in update :: r[k] == current[k]
  {
    current + update
  }

  /** Merging the same update twice is merging it once. */
  lemma MergeIdempotent(current: Prefs, update: Prefs)
    ensures MergePrefs(MergePrefs(current, update), update) == MergePrefs(current, update)
  {
  }

  /** A theme saved through the merge is the theme read back. */
  lemma ThemeRoundTrip(prefs: Prefs, t: string)
    requires t != ""
    ensures ThemeFromPrefs(MergePrefs(prefs, map["theme" := Text(t)])) == t
  {
  }

  /** What a `saveUserPreferences` call leaves in storage. */
  function SavePrefs(current: Prefs, update: Prefs, readFails: bool, writeFails: bool): (r: Prefs)
    ensures readFails || writeFails ==> r == current
    ensures !readFails && !writeFails ==> r == MergePrefs(current, update)
  {
    if readFails || writeFails then current else MergePrefs(current, update)
  }

  // ---- restoring one entry ----

  /** Where `splice(index, 1)` starts on a list of length `len`: negative counts from the end, clamped. */
  function SpliceStart(len: nat, index: int): (k: nat)
    ensures k <= len
    ensures 0 <= index <= len ==> k == index
    ensures -(len as int) <= index < 0 ==> k == len + index
  {
    if index < 0 then (if len + index < 0 then 0 else len + index)
    else if index > len then len
    else index
  }

  /** The list after `splice(index, 1)`. */
  function RemoveAt(s: seq<string>, index: int): (r: seq<string>)
    ensures 0 <= index < |s| ==> |r| == |s| - 1
    ensures 0 <= index < |s| ==> forall k | 0 <= k < index :: r[k] == s[k]
    ensures 0 <= index < |s| ==> forall k | index <= k < |r| :: r[k] == s[k + 1]
    ensures 0 <= index < |s| ==> multiset(r) + multiset{s[index]} == multiset(s)
    ensures index >= |s| ==> r == s
  {
    var k := SpliceStart(|s|, index);
    if k < |s| then
      assert s == s[..k] + [s[k]] + s[k + 1..];
      s[..k] + s[k + 1..]
    else s
  }

  /** A negative index removes the entry that many places from the end. */
  lemma RemoveAtFromEnd(s: seq<string>, index: int)
    requires -|s| <= index < 0
    ensures RemoveAt(s, index) == RemoveAt(s, |s| + index)
  {
  }

  /** Removing an entry keeps a duplicate-free list duplicate-free. */
  lemma RemoveAtNoDup(s: seq<string>, index: int)
    requires NoDup(s)
    ensures NoDup(RemoveAt(s, index))
  {
    var k := SpliceStart(|s|, index);
    if k < |s| {
      var r := s[..k] + s[k + 1..];
      forall i, j | 0 <= i < j < |r|
        ensures r[i] != r[j]
      {
        var i' := if i < k then i else i + 1;
        var j' := if j < k then j else j + 1;
        assert r[i] == s[i'] && r[j] == s[j'] && i' < j';
      }
    }
  }

  /**
   * `unblockElement` on the fetched map (manage.js:238-244): nothing when the
   * site has no entry, otherwise the spliced list, and the key goes away
   * when the list becomes empty.
   */
  function Unblock(m: Blocked, site: string, index: int): (r: Blocked)
    ensures site !in m ==> r == m
    ensures forall h | h != site :: (h in r <==> h in m) && (h in r ==> r[h] == m[h])
    ensures site in m ==> (site in r <==> RemoveAt(m[site], index) != [])
    ensures site in r ==> r[site] == RemoveAt(m[site], index)
  {
    if site !in m then m
    else
      var rest := RemoveAt(m[site], index);
      if rest == [] then m - {site} else m[site := rest]
  }

  /** Restoring an entry keeps the stored map well formed. */
  lemma UnblockWellStored(m: Blocked, site: string, index: int)
    requires WellStored(m)
    ensures WellStored(Unblock(m, site, index))
  {
    if site in m {
      RemoveAtNoDup(m[site], index);
    }
  }

  // ---- counting ----

  /** The number of stored selectors over all sites. */
  ghost function Total(m: Blocked): nat
    decreases |m|
  {
    if m == map[] then 0
    else
      assert exists k :: k in m by {
        assert m.Keys != {};
        var k :| k in m.Keys;
      }
      var k :| k in m;
      |m[k]| + Total(m - {k})
  }

  /** The sum does not depend on the order the sites are taken in. */
  lemma {:induction false} TotalRemove(m: Blocked, k: string)
    requires k in m
    ensures Total(m) == |m[k]| + Total(m - {k})
    decreases |m|
  {
    var j :| j in m && Total(m) == |m[j]| + Total(m - {j});
    if j != k {
      TotalRemove(m - {j}, k);
      TotalRemove(m - {k}, j);
      assert m - {j} - {k} == m - {k} - {j};
    }
  }

  /** Restoring one valid entry lowers the total by one. */
  lemma UnblockTotal(m: Blocked, site: string, index: int)
    requires site in m && 0 <= index < |m[site]|
    ensures Total(Unblock(m, site, index)) + 1 == Total(m)
  {
    var r := Unblock(m, site, index);
    TotalRemove(m, site);
    if site in r {
      TotalRemove(r, site);
      assert r - {site} == m - {site};
    } else {
      assert r == m - {site};
    }
  }

  /** The count `clearSite` reports: the length of the site's list, 0 when absent (manage.js:273). */
  function ClearSiteCount(m: Blocked, site: string): (n: nat)
    ensures site !in m ==> n == 0
  {
    if site in m then |m[site]| else 0
  }

  /** Clearing a site removes exactly the reported number of entries. */
  lemma ClearSiteAccount(m: Blocked, site: string)
    ensures Total(m - {site}) + ClearSiteCount(m, site) == Total(m)
  {
    if site in m {
      TotalRemove(m, site);
    } else {
      assert m - {site} == m;
    }
  }

  // ---- display helpers ----

  /** `"N element"` with an `s` unless N is 1 (manage.js:139). */
  function CountLabel(n: nat): (r: string)
    ensures StartsWith(r, NatToString(n))
    ensures r[|r| - 1] == 's' <==> n != 1
  {
    NatToString(n) + " element" + (if n != 1 then "s" else "")
  }

  /** The selector as listed: unchanged up to 60 characters, else 57 of them and an ellipsis (manage.js:149-150). */
  function SelectorDisplay(s: string): (r: string)
    ensures |r| <= 60
    ensures |s| <= 60 ==> r == s
    ensures |s| > 60 ==> |r| == 60 && r[..57] == s[..57] && r[57..] == "..."
  {
    if |s| > 60 then s[..57] + "..." else s
  }

  /** `www.` dropped from the front. */
  function StripWww(s: string): (r: string)
    ensures |r| <= |s| && r == s[|s| - |r|..]
  {
    if StartsWith(s, "www.") then s[4..] else s
  }

  /** `replace(/^https?:\/\/(www\.)?/, '')`: the scheme, and `www.` right after it, dropped. */
  function StripScheme(s: string): (r: string)
    ensures !StartsWith(s, "http://") && !StartsWith(s, "https://") ==> r == s
    ensures |r| <= |s| && r == s[|s| - |r|..]
    ensures StartsWith(s, "http://") || StartsWith(s, "https://") ==> |r| <= |s| - 7
  {
    if StartsWith(s, "https://") then StripWww(s[8..])
    else if StartsWith(s, "http://") then StripWww(s[7..])
    else s
  }

  /** `split('/')[0]`: the text before the first slash. */
  function UpToSlash(s: string): (r: string)
    ensures '/' !in r
    ensures r <= s
    ensures |r| < |s| ==> s[|r|] == '/'
    ensures '/' !in s ==> r == s
  {
    if s == [] || s[0] == '/' then [] else [s[0]] + UpToSlash(s[1..])
  }

  /** The site name a card and a clear notice show (manage.js:129, 260). */
  function SiteDisplay(site: string): (r: string)
    ensures '/' !in r
    ensures r <= StripScheme(site)
    ensures |r| < |StripScheme(site)| ==> StripScheme(site)[|r|] == '/'
  {
    UpToSlash(StripScheme(site))
  }

  /** A URL with a scheme, with or without `www.`, shows its host name. */
  lemma SchemeDisplay(scheme: string, www: bool, host: string, path: string)
    requires scheme == "http://" || scheme == "https://"
    requires '/' !in host
    requires !www ==> !StartsWith(host, "www.")
    ensures SiteDisplay(scheme + (if www then "www." else "") + host + "/" + path) == host
  {
    var w := if www then "www." else "";
    var tail := host + "/" + path;
    assert scheme + w + host + "/" + path == scheme + (w + tail);
    StripSchemeOf(scheme, w + tail);
    if !www {
      NoWwwInFront(host, path);
    }
    StripWwwOf(w, tail);
    UpToSlashOf(host, path);
  }

  /** The scheme is dropped, and then `www.` if it follows. */
  lemma StripSchemeOf(scheme: string, rest: string)
    requires scheme == "http://" || scheme == "https://"
    ensures StripScheme(scheme + rest) == StripWww(rest)
  {
    var s := scheme + rest;
    assert s[..|scheme|] == scheme;
    if scheme == "https://" {
      assert StartsWith(s, "https://");
      assert s[8..] == rest;
    } else {
      assert s[4] == ':' && "https://"[4] == 's';
      assert !StartsWith(s, "https://");
      assert StartsWith(s, "http://");
      assert s[7..] == rest;
    }
  }

  /** One `www.` in front is dropped; without it, nothing is. */
  lemma StripWwwOf(w: string, tail: string)
    requires w == "www." || (w == "" && !StartsWith(tail, "www."))
    ensures StripWww(w + tail) == tail
  {
    if w == "www." {
      assert (w + tail)[..4] == w;
      assert (w + tail)[4..] == tail;
    } else {
      assert w + tail == tail;
    }
  }

  /** A host without a slash and without `www.` keeps `www.` out of the front of its URL tail. */
  lemma NoWwwInFront(host: string, path: string)
    requires '/' !in host && !StartsWith(host, "www.")
    ensures !StartsWith(host + "/" + path, "www.")
  {
    var tail := host + "/" + path;
    if |host| >= 4 {
      assert tail[..4] == host[..4];
    } else {
      assert tail[|host|] == '/';
      assert "www."[|host|] != '/';
    }
  }

  /** The text before the first slash of `host + "/" + path` is `host`. */
  lemma UpToSlashOf(host: string, path: string)
    requires '/' !in host
    ensures UpToSlash(host + "/" + path) == host
  {
    var s := host + "/" + path;
    assert s[|host|] == '/';
    assert forall i :: 0 <= i < |host| ==> s[i] == host[i];
  }

  /** A bare host name, as the content script stores it, is shown as it is. */
  lemma BareHostDisplay(site: string)
    requires !StartsWith(site, "http://") && !StartsWith(site, "https://") && '/' !in site
    ensures SiteDisplay(site) == site
  {
    assert StripScheme(site) == site;
  }

  /** `toUpperCase` on one character, for the ASCII letters. */
  function Upper(c: char): (u: char)
    ensures 'a' <= c <= 'z' ==> 'A' <= u <= 'Z'
    ensures !('a' <= c <= 'z') ==> u == c
  {
    if 'a' <= c <= 'z' then (c as int - 32) as char else c
  }

  /** The card icon: the site's first character upper-cased, or nothing. */
  function Icon(site: string): (r: string)
    ensures |r| == if site == [] then 0 else 1
    ensures site != [] ==> r[0] == Upper(site[0])
  {
    if site == [] then "" else [Upper(site[0])]
  }

  // ---- getElementDescription ----

  const DefaultLabel := "Page element"

  /** `getElementDescription` as written: the first keyword test that succeeds names the selector (manage.js:204-227). */
  function Describe(s: string): (r: string)
    ensures r != ""
  {
    if Contains(s, "ads") || Contains(s, "advertisement") then "Advertisement content"
    else if Contains(s, "popup") || Contains(s, "modal") then "Popup or modal dialog"
    else if Contains(s, "nav") || Contains(s, "menu") then "Navigation or menu element"
    else if Contains(s, "sidebar") then "Sidebar content"
    else if Contains(s, "header") then "Header content"
    else if Contains(s, "footer") then "Footer content"
    else if Contains(s, "comment") then "Comments section"
    else if Contains(s, "social") then "Social media element"
    else if Contains(s, "btn") || Contains(s, "button") then "Button element"
    else DefaultLabel
  }

  /** A keyword test and the label it gives. */
  datatype Rule = Rule(keywords: seq<string>, text: string)

  /** The keyword tests of `getElementDescription` as a table, in the order they are tried. */
  const Rules: seq<Rule> := [
    Rule(["ads", "advertisement"], "Advertisement content"),
    Rule(["popup", "modal"], "Popup or modal dialog"),
    Rule(["nav", "menu"], "Navigation or menu element"),
    Rule(["sidebar"], "Sidebar content"),
    Rule(["header"], "Header content"),
    Rule(["footer"], "Footer content"),
    Rule(["comment"], "Comments section"),
    Rule(["social"], "Social media element"),
    Rule(["btn", "button"], "Button element")
  ]

  /** Some keyword of the list occurs in `s`. */
  predicate AnyContains(s: string, keywords: seq<string>)
  {
    keywords != [] && (Contains(s, keywords[0]) || AnyContains(s, keywords[1..]))
  }

  /** The label of the first rule from position `i` on with a keyword in `s`, else the default label. */
  function FirstLabel(rules: seq<Rule>, s: string, i: nat): string
    decreases |rules| - i
  {
    if i >= |rules| then DefaultLabel
    else if AnyContains(s, rules[i].keywords) then rules[i].text
    else FirstLabel(rules, s, i + 1)
  }

  /** A rule that fires, with none before it from `from` on firing, gives the label. */
  lemma {:induction false} FirstLabelPicks(rules: seq<Rule>, s: string, from: nat, i: nat)
    requires from <= i < |rules| && AnyContains(s, rules[i].keywords)
    requires forall j | from <= j < i :: !AnyContains(s, rules[j].keywords)
    ensures FirstLabel(rules, s, from) == rules[i].text
    decreases i - from
  {
    if from < i {
      FirstLabelPicks(rules, s, from + 1, i);
    }
  }

  /** When no rule from `from` on fires the default label is given. */
  lemma {:induction false} FirstLabelDefault(rules: seq<Rule>, s: string, from: nat)
    requires forall j | from <= j < |rules| :: !AnyContains(s, rules[j].keywords)
    ensures FirstLabel(rules, s, from) == DefaultLabel
    decreases |rules| - from
  {
    if from < |rules| {
      FirstLabelDefault(rules, s, from + 1);
    }
  }

  lemma AnyContainsPair(s: string, a: string, b: string)
    ensures AnyContains(s, [a, b]) <==> Contains(s, a) || Contains(s, b)
  {
    assert [a, b][1..] == [b];
    AnyContainsOne(s, b);
  }

  lemma AnyContainsOne(s: string, a: string)
    ensures AnyContains(s, [a]) <==> Contains(s, a)
  {
    assert [a][1..] == [];
    assert !AnyContains(s, []);
  }

  /** The chain of tests agrees with the table: the first rule that fires gives the description. */
  lemma DescribeByRules(s: string)
    ensures Describe(s) == FirstLabel(Rules, s, 0)
  {
    var r := Rules;
    AnyContainsPair(s, "ads", "advertisement");
    AnyContainsPair(s, "popup", "modal");
    AnyContainsPair(s, "nav", "menu");
    AnyContainsOne(s, "sidebar");
    AnyContainsOne(s, "header");
    AnyContainsOne(s, "footer");
    AnyContainsOne(s, "comment");
    AnyContainsOne(s, "social");
    AnyContainsPair(s, "btn", "button");
    assert FirstLabel(r, s, 9) == DefaultLabel;
    assert FirstLabel(r, s, 8) == if Contains(s, "btn") || Contains(s, "button") then "Button element" else DefaultLabel;
    assert FirstLabel(r, s, 7) == if Contains(s, "social") then "Social media element" else FirstLabel(r, s, 8);
    assert FirstLabel(r, s, 6) == if Contains(s, "comment") then "Comments section" else FirstLabel(r, s, 7);
    assert FirstLabel(r, s, 5) == if Contains(s, "footer") then "Footer content" else FirstLabel(r, s, 6);
    assert FirstLabel(r, s, 4) == if Contains(s, "header") then "Header content" else FirstLabel(r, s, 5);
    assert FirstLabel(r, s, 3) == if Contains(s, "sidebar") then "Sidebar content" else FirstLabel(r, s, 4);
    assert FirstLabel(r, s, 2) ==
      if Contains(s, "nav") || Contains(s, "menu") then "Navigation or menu element" else FirstLabel(r, s, 3);
    assert FirstLabel(r, s, 1) ==
      if Contains(s, "popup") || Contains(s, "modal") then "Popup or modal dialog" else FirstLabel(r, s, 2);
    assert FirstLabel(r, s, 0) ==
      if Contains(s, "ads") || Contains(s, "advertisement") then "Advertisement content" else FirstLabel(r, s, 1);
  }

  // ---- the listing ----

  /** One listed selector: its display text, its description and its position in the site's list. */
  datatype Item = Item(display: string, description: string, index: nat)

  /** One site card. */
  datatype Card = Card(site: string, icon: string, display: string, countLabel: string, items: seq<Item>)

  /** What `loadBlockedElements` renders. */
  datatype Listing = LoadError | EmptyState | Cards(cards: seq<Card>)

  function ItemFor(sel: string, index: nat): Item
  {
    Item(SelectorDisplay(sel), Describe(sel), index)
  }

  /** The card of a site with its selector list (manage.js:128-166). */
  function CardFor(site: string, sels: seq<string>): Card
  {
    Card(site, Icon(site), SiteDisplay(site), CountLabel(|sels|),
      seq(|sels|, i requires 0 <= i < |sels| => ItemFor(sels[i], i)))
  }

  /** The sites that get a card: those with a non-empty list. */
  function Listed(m: Blocked): set<string>
  {
    set s | s in m && m[s] != []
  }

  /** Cards in strictly ascending site order. */
  predicate SiteOrder(cards: seq<Card>)
  {
    forall i, j | 0 <= i < j < |cards| :: LexLe(cards[i].site, cards[j].site) && cards[i].site != cards[j].site
  }

  /** `cards` is the listing of `m`: one card per listed site, ascending, each built from its list. */
  predicate ListingOf(cards: seq<Card>, m: Blocked)
  {
    && (forall i | 0 <= i < |cards| :: cards[i].site in m && cards[i] == CardFor(cards[i].site, m[cards[i].site]))
    && (set i | 0 <= i < |cards| :: cards[i].site) == Listed(m)
    && SiteOrder(cards)
  }

  /** A map has one listing: two listings of the same map are equal. */
  lemma {:induction false} ListingUnique(c1: seq<Card>, c2: seq<Card>, m: Blocked)
    requires ListingOf(c1, m) && ListingOf(c2, m)
    ensures c1 == c2
  {
    SiteOrderUnique(c1, c2);
    forall i | 0 <= i < |c1|
      ensures c1[i] == c2[i]
    {
      assert c1[i].site == c2[i].site;
    }
  }

  function SiteSet(cards: seq<Card>): set<string>
  {
    set i | 0 <= i < |cards| :: cards[i].site
  }

  /** Two strictly ascending card lists over the same sites list the sites in the same order. */
  lemma {:induction false} SiteOrderUnique(c1: seq<Card>, c2: seq<Card>)
    requires SiteOrder(c1) && SiteOrder(c2) && SiteSet(c1) == SiteSet(c2)
    ensures |c1| == |c2|
    ensures forall i | 0 <= i < |c1| :: c1[i].site == c2[i].site
  {
    assert c1 != [] ==> c1[0].site in SiteSet(c1);
    assert c2 != [] ==> c2[0].site in SiteSet(c2);
    if c1 == [] {
    } else {
      assert c1[0].site in SiteSet(c2);
      assert c2 != [];
      assert c2[0].site in SiteSet(c1);
      var i :| 0 <= i < |c2| && c2[i].site == c1[0].site;
      var j :| 0 <= j < |c1| && c1[j].site == c2[0].site;
      assert LexLe(c2[0].site, c1[0].site) by {
        if i > 0 {
          assert LexLe(c2[0].site, c2[i].site);
        } else {
          LexLeTotal(c2[0].site, c2[0].site);
        }
      }
      assert LexLe(c1[0].site, c2[0].site) by {
        if j > 0 {
          assert LexLe(c1[0].site, c1[j].site);
        } else {
          LexLeTotal(c1[0].site, c1[0].site);
        }
      }
      LexLeAntisymmetric(c1[0].site, c2[0].site);
      var t1 := c1[1..];
      var t2 := c2[1..];
      assert SiteSet(t1) == SiteSet(t2) by {
        assert SiteSet(c1) == SiteSet(t1) + {c1[0].site};
        assert SiteSet(c2) == SiteSet(t2) + {c2[0].site};
        assert c1[0].site !in SiteSet(t1);
        assert c2[0].site !in SiteSet(t2);
      }
      SiteOrderUnique(t1, t2);
      forall k | 0 <= k < |c1|
        ensures c1[k].site == c2[k].site
      {
        if k > 0 {
          assert t1[k - 1] == c1[k] && t2[k - 1] == c2[k];
        }
      }
    }
  }

  /** The notice a finished operation shows. */
  datatype Notice = Quiet | Success(message: string) | Failure(message: string)

  /** The success notice of `clearSite` (manage.js:281). */
  function ClearedSiteMessage(n: nat, site: string): string
  {
    "Cleared " + CountLabel(n) + " from " + SiteDisplay(site)
  }

  /** The success notice of `clearAll` (manage.js:302). */
  function ClearedAllMessage(n: nat): string
  {
    "Cleared " + CountLabel(n) + " from all sites"
  }

  /** One card, its items accumulated in list order as the `forEach` does (manage.js:128-166). */
  method RenderCard(site: string, sels: seq<string>) returns (card: Card)
    ensures card == CardFor(site, sels)
    ensures card.items != [] <==> sels != []
  {
    var items: seq<Item> := [];
    for index := 0 to |sels|
      invariant |items| == index
      invariant forall k | 0 <= k < index :: items[k] == ItemFor(sels[k], k)
    {
      var item := ItemFor(sels[index], index);
      items := items + [item];
    }
    assert items == seq(|sels|, i requires 0 <= i < |sels| => ItemFor(sels[i], i));
    card := Card(site, Icon(site), SiteDisplay(site), CountLabel(|sels|), items);
  }

  /**
   * The page's state: the current theme and the storage area it reads and
   * writes. Dialogs are a parameter (`confirmed`) and notices a result.
   */
  class Manager {
    var currentTheme: string
    const storage: Storage

    constructor (storage: Storage)
      ensures this.storage == storage && currentTheme == "auto"
    {
      this.storage := storage;
      currentTheme := "auto";
    }

    /**
     * `initTheme` (manage.js:30-34). The source does not check for a read
     * error; its callback then fails on the missing result and leaves the theme.
     */
    method InitTheme()
      modifies this`currentTheme
      ensures storage.readFails ==> currentTheme == old(currentTheme)
      ensures !storage.readFails ==> currentTheme == ThemeFromPrefs(storage.userPreferences)
    {
      var prefs := storage.GetPrefs();
      if prefs.Some? {
        currentTheme := ThemeFromPrefs(prefs.value);
      }
    }

    /** `saveUserPreferences` (manage.js:45-54): read, merge, write. */
    method SaveUserPreferences(update: Prefs)
      modifies storage`userPreferences
      ensures storage.userPreferences == SavePrefs(old(storage.userPreferences), update, storage.readFails, storage.writeFails)
    {
      var current := storage.GetPrefs();
      if current.Some? {
        storage.SetPrefs(MergePrefs(current.value, update));
      }
    }

    /** The theme button (manage.js:60-68): the next theme, saved into the preferences. */
    method ToggleTheme()
      modifies this`currentTheme, storage`userPreferences
      ensures currentTheme == NextTheme(old(currentTheme))
      ensures storage.userPreferences ==
        SavePrefs(old(storage.userPreferences), map["theme" := Text(currentTheme)], storage.readFails, storage.writeFails)
    {
      currentTheme := NextTheme(currentTheme);
      SaveUserPreferences(map["theme" := Text(currentTheme)]);
    }

    /** `unblockElement` (manage.js:229-257). */
    method UnblockElement(site: string, index: int) returns (notice: Notice)
      modifies storage`blockedElements
      ensures storage.readFails || storage.writeFails || site !in old(storage.blockedElements) ==>
        storage.blockedElements == old(storage.blockedElements)
      ensures !storage.readFails && !storage.writeFails && site in old(storage.blockedElements) ==>
        storage.blockedElements == Unblock(old(storage.blockedElements), site, index)
      ensures notice ==
        if storage.readFails then Failure("Failed to unblock element")
        else if site !in old(storage.blockedElements) then Quiet
        else if storage.writeFails then Failure("Failed to save changes")
        else Success("Element restored successfully")
    {
      var r := storage.Get();
      if r.None? {
        return Failure("Failed to unblock element");
      }
      var blocked := r.value;
      if site !in blocked {
        return Quiet;
      }
      var rest := RemoveAt(blocked[site], index);
      if rest == [] {
        blocked := blocked - {site};
      } else {
        blocked := blocked[site := rest];
      }
      storage.Set(blocked);
      if storage.writeFails {
        notice := Failure("Failed to save changes");
      } else {
        notice := Success("Element restored successfully");
      }
    }

    /** `clearSite` (manage.js:259-286): the site's key goes, whether or not it was there. */
    method ClearSite(site: string, confirmed: bool) returns (notice: Notice)
      modifies storage`blockedElements
      ensures !confirmed || storage.readFails || storage.writeFails ==>
        storage.blockedElements == old(storage.blockedElements)
      ensures confirmed && !storage.readFails && !storage.writeFails ==>
        storage.blockedElements == old(storage.blockedElements) - {site}
      ensures notice ==
        if !confirmed then Quiet
        else if storage.readFails then Failure("Failed to clear site")
        else if storage.writeFails then Failure("Failed to save changes")
        else Success(ClearedSiteMessage(ClearSiteCount(old(storage.blockedElements), site), site))
    {
      if !confirmed {
        return Quiet;
      }
      var r := storage.Get();
      if r.None? {
        return Failure("Failed to clear site");
      }
      var blocked := r.value;
      var count := if site in blocked then |blocked[site]| else 0;
      blocked := blocked - {site};
      storage.Set(blocked);
      if storage.writeFails {
        notice := Failure("Failed to save changes");
      } else {
        notice := Success(ClearedSiteMessage(count, site));
      }
    }

    /**
     * `clearAll` (manage.js:288-307): the entries are counted over the sites,
     * then the empty map is written. The source does not check for a read
     * error; its callback then fails on the missing result and writes nothing.
     */
    method ClearAll(confirmed: bool) returns (notice: Notice)
      modifies storage`blockedElements
      ensures !confirmed || storage.readFails || storage.writeFails ==>
        storage.blockedElements == old(storage.blockedElements)
      ensures confirmed && !storage.readFails && !storage.writeFails ==> storage.blockedElements == map[]
      ensures notice ==
        if !confirmed || storage.readFails then Quiet
        else if storage.writeFails then Failure("Failed to clear all elements")
        else Success(ClearedAllMessage(Total(old(storage.blockedElements))))
    {
      if !confirmed {
        return Quiet;
      }
      var r := storage.Get();
      if r.None? {
        return Quiet;
      }
      var blocked := r.value;
      var total := 0;
      var rest := blocked;
      while rest != map[]
        invariant storage.blockedElements == old(storage.blockedElements)
        invariant total + Total(rest) == Total(blocked)
        decreases |rest|
      {
        var site :| site in rest;
        TotalRemove(rest, site);
        total := total + |rest[site]|;
        rest := rest - {site};
      }
      storage.Set(map[]);
      if storage.writeFails {
        notice := Failure("Failed to clear all elements");
      } else {
        notice := Success(ClearedAllMessage(total));
      }
    }

    /**
     * `loadBlockedElements` (manage.js:93-179): the keys are taken, sorted,
     * and every site with a non-empty list becomes a card.
     */
    method LoadBlockedElements() returns (view: Listing)
      ensures view.LoadError? <==> storage.readFails
      ensures view.EmptyState? <==> !storage.readFails && storage.blockedElements == map[]
      ensures view.Cards? ==> ListingOf(view.cards, storage.blockedElements)
    {
      var r := storage.Get();
      if r.None? {
        return LoadError;
      }
      var blocked := r.value;
      if blocked == map[] {
        return EmptyState;
      }
      var keys := SiteKeys(blocked);
      var sorted := Sort(keys);
      AscendingSorted(sorted);
      assert forall s :: s in sorted <==> s in blocked by {
        forall s ensures s in sorted <==> s in keys {
          assert s in sorted <==> s in multiset(sorted);
          assert s in keys <==> s in multiset(keys);
        }
      }
      var cards := RenderCards(blocked, sorted);
      return Cards(cards);
    }
  }

  /** The sites among `xs` that get a card. */
  function ListedAmong(m: Blocked, xs: seq<string>): set<string>
  {
    set s | s in xs && s in m && m[s] != []
  }

  lemma ListedAmongAppend(m: Blocked, xs: seq<string>, x: string)
    ensures ListedAmong(m, xs + [x]) == ListedAmong(m, xs) + (if x in m && m[x] != [] then {x} else {})
  {
  }

  lemma SiteSetAppend(cards: seq<Card>, card: Card)
    ensures SiteSet(cards + [card]) == SiteSet(cards) + {card.site}
  {
    var c := cards + [card];
    assert c[|cards|] == card;
    forall x | x in SiteSet(cards)
      ensures x in SiteSet(c)
    {
      var i :| 0 <= i < |cards| && cards[i].site == x;
      assert c[i] == cards[i];
    }
  }

  /** Appending a card whose site comes after every listed one keeps the order strict. */
  lemma SiteOrderAppend(cards: seq<Card>, card: Card)
    requires SiteOrder(cards)
    requires forall c | 0 <= c < |cards| :: LexLe(cards[c].site, card.site) && cards[c].site != card.site
    ensures SiteOrder(cards + [card])
  {
  }

  /** Every card is the card of its site's list in `m`. */
  predicate AllBuilt(cards: seq<Card>, m: Blocked)
  {
    forall c | 0 <= c < |cards| :: cards[c].site in m && cards[c] == CardFor(cards[c].site, m[cards[c].site])
  }

  lemma AllBuiltAppend(cards: seq<Card>, m: Blocked, site: string)
    requires AllBuilt(cards, m) && site in m
    ensures AllBuilt(cards + [CardFor(site, m[site])], m)
  {
    var next := cards + [CardFor(site, m[site])];
    assert forall c | 0 <= c < |cards| :: next[c] == cards[c];
  }

  /** Every card's site is among `xs`. */
  predicate SitesAmong(cards: seq<Card>, xs: seq<string>)
  {
    forall c | 0 <= c < |cards| :: cards[c].site in xs
  }

  lemma SitesAmongAppend(cards: seq<Card>, xs: seq<string>, card: Card)
    requires SitesAmong(cards, xs) && card.site in xs
    ensures SitesAmong(cards + [card], xs)
  {
    var next := cards + [card];
    assert forall c | 0 <= c < |cards| :: next[c] == cards[c];
  }

  lemma SitesAmongGrow(cards: seq<Card>, xs: seq<string>, x: string)
    requires SitesAmong(cards, xs)
    ensures SitesAmong(cards, xs + [x])
  {
  }

  /** The cards rendered for the first `i` sites of `sorted`. */
  predicate RenderedUpTo(cards: seq<Card>, m: Blocked, sorted: seq<string>, i: nat)
    requires i <= |sorted|
  {
    && SitesAmong(cards, sorted[..i])
    && AllBuilt(cards, m)
    && SiteSet(cards) == ListedAmong(m, sorted[..i])
    && SiteOrder(cards)
  }

  /** Every site drawn from the first `i` of a sorted, duplicate-free list comes strictly before the `i`-th. */
  lemma SitesBefore(cards: seq<Card>, sorted: seq<string>, i: nat)
    requires Sorted(sorted) && NoDup(sorted) && i < |sorted|
    requires SitesAmong(cards, sorted[..i])
    ensures forall c | 0 <= c < |cards| :: LexLe(cards[c].site, sorted[i]) && cards[c].site != sorted[i]
  {
    forall c | 0 <= c < |cards|
      ensures LexLe(cards[c].site, sorted[i]) && cards[c].site != sorted[i]
    {
      var j :| 0 <= j < i && sorted[..i][j] == cards[c].site;
      assert sorted[j] == cards[c].site;
    }
  }

  /** One more site: a card when its list is non-empty, nothing otherwise. */
  lemma RenderStep(cards: seq<Card>, m: Blocked, sorted: seq<string>, i: nat)
    requires Sorted(sorted) && NoDup(sorted) && i < |sorted| && sorted[i] in m
    requires RenderedUpTo(cards, m, sorted, i)
    ensures m[sorted[i]] == [] ==> RenderedUpTo(cards, m, sorted, i + 1)
    ensures m[sorted[i]] != [] ==> RenderedUpTo(cards + [CardFor(sorted[i], m[sorted[i]])], m, sorted, i + 1)
  {
    var site := sorted[i];
    assert sorted[..i + 1] == sorted[..i] + [site];
    ListedAmongAppend(m, sorted[..i], site);
    SitesAmongGrow(cards, sorted[..i], site);
    if m[site] != [] {
      var card := CardFor(site, m[site]);
      SitesBefore(cards, sorted, i);
      SiteOrderAppend(cards, card);
      SiteSetAppend(cards, card);
      AllBuiltAppend(cards, m, site);
      SitesAmongAppend(cards, sorted[..i + 1], card);
    }
  }

  /** The cards of the sites in `sorted` whose lists are non-empty, in that order (manage.js:124-172). */
  method RenderCards(m: Blocked, sorted: seq<string>) returns (cards: seq<Card>)
    requires Sorted(sorted) && NoDup(sorted)
    requires forall s :: s in sorted <==> s in m
    ensures ListingOf(cards, m)
  {
    cards := [];
    for i := 0 to |sorted|
      invariant RenderedUpTo(cards, m, sorted, i)
    {
      var site := sorted[i];
      var sels := m[site];
      RenderStep(cards, m, sorted, i);
      if sels != [] {
        var card := RenderCard(site, sels);
        cards := cards + [card];
      }
    }
    assert sorted[..|sorted|] == sorted;
    assert ListedAmong(m, sorted) == Listed(m);
  }

  /** `Object.keys`: every key once. */
  method SiteKeys(m: Blocked) returns (keys: seq<string>)
    ensures forall s :: s in keys <==> s in m
    ensures NoDup(keys)
  {
    keys := [];
    var rest := m.Keys;
    while rest != {}
      invariant forall s :: s in keys <==> s in m && s !in rest
      invariant rest <= m.Keys
      invariant NoDup(keys)
      decreases |rest|
    {
      var s :| s in rest;
      keys := keys + [s];
      rest := rest - {s};
    }
  }
}
