/**
 * The persisted state in `chrome.storage.local`: the per-host selector lists
 * under `blockedElements` and the preference bag under `userPreferences`,
 * with the read-modify-write steps the content script performs on the list
 * map (content.js:158-195).
 */
module Store {
  import opened Wrappers
  import opened Util

  /** Host name to the selectors blocked on it, in the order they were added. */
  type Blocked = map<string, seq<string>>

  datatype PrefValue = Text(text: string) | Flag(flag: bool)

  type Prefs = map<string, PrefValue>

  /**
   * The storage area shared by the content script and the management page.
   * `readFails` and `writeFails` say whether `chrome.runtime.lastError` is set
   * when a `get` or a `set` completes.
   */
  class Storage {
    var blockedElements: Blocked
    var userPreferences: Prefs
    var readFails: bool
    var writeFails: bool

    constructor (blocked: Blocked, prefs: Prefs, readFails: bool, writeFails: bool)
      ensures blockedElements == blocked && userPreferences == prefs
      ensures this.readFails == readFails && this.writeFails == writeFails
    {
      blockedElements := blocked;
      userPreferences := prefs;
      this.readFails := readFails;
      this.writeFails := writeFails;
    }

    /** `get` of the selector map: nothing when the read reports an error. */
    method Get() returns (r: Option<Blocked>)
      ensures readFails ==> r.None?
      ensures !readFails ==> r == Some(blockedElements)
    {
      if readFails {
        return None;
      }
      return Some(blockedElements);
    }

    /** `get` of the preference bag: nothing when the read reports an error. */
    method GetPrefs() returns (r: Option<Prefs>)
      ensures readFails ==> r.None?
      ensures !readFails ==> r == Some(userPreferences)
    {
      if readFails {
        return None;
      }
      return Some(userPreferences);
    }

    /** `set` of the preference bag, unless the write reports an error. */
    method SetPrefs(p: Prefs)
      modifies this`userPreferences
      ensures userPreferences == if writeFails then old(userPreferences) else p
    {
      if !writeFails {
        userPreferences := p;
      }
    }

    /** `set` of the selector map: the map is replaced unless the write reports an error. */
    method Set(m: Blocked)
      modifies this`blockedElements
      ensures blockedElements == if writeFails then old(blockedElements) else m
    {
      if !writeFails {
        blockedElements := m;
      }
    }
  }

  /** Every stored list is non-empty and free of duplicates, as the writers keep it. */
  predicate WellStored(m: Blocked)
  {
    forall h | h in m :: m[h] != [] && NoDup(m[h])
  }

  /**
   * The persisting callback of `saveSelectorForHost` on a map it has read:
   * the host's list gains `sel` at its end unless it already holds it
   * (content.js:165-167); no other host is touched.
   */
  function AddSelector(m: Blocked, host: string, sel: string): (r: Blocked)
    ensures r.Keys == m.Keys + {host}
    ensures forall h | h in m && h != host :: r[h] == m[h]
    ensures sel in r[host]
    ensures host in m && sel in m[host] ==> r == m
    ensures host in m && sel !in m[host] ==> r[host] == m[host] + [sel]
    ensures host !in m ==> r[host] == [sel]
  {
    var list := if host in m then m[host] else [];
    m[host := if sel in list then list else list + [sel]]
  }

  /** The re-check before the push keeps the host's list free of duplicates: `sel` is in it exactly once. */
  lemma AddSelectorOnce(m: Blocked, host: string, sel: string)
    requires host in m ==> NoDup(m[host])
    ensures NoDup(AddSelector(m, host, sel)[host])
    ensures Count(AddSelector(m, host, sel)[host], sel) == 1
  {
    var r := AddSelector(m, host, sel)[host];
    assert NoDup(r);
    NoDupCount(r, sel);
  }

  lemma AddSelectorWellStored(m: Blocked, host: string, sel: string)
    requires WellStored(m)
    ensures WellStored(AddSelector(m, host, sel))
  {
    var r := AddSelector(m, host, sel);
    forall h | h in r ensures r[h] != [] && NoDup(r[h]) {
      if h == host {
        AddSelectorOnce(m, host, sel);
      }
    }
  }

  /**
   * `saveSelectorForHost`'s persistence with the storage errors: a failed read
   * or a failed write leaves the stored map as it was, where the written code would
   * persist the empty map it was handed after a failed read.
   */
  function PersistSave(m: Blocked, host: string, sel: string, readFails: bool, writeFails: bool): (r: Blocked)
    ensures forall h | h != host :: (h in r <==> h in m) && (h in m ==> r[h] == m[h])
    ensures readFails || writeFails ==> r == m
    ensures !readFails && !writeFails ==> host in r && sel in r[host]
  {
    if readFails || writeFails then m else AddSelector(m, host, sel)
  }

  /** As content.js:127-131 and 164-168 write it: a failed read stands for an empty map, which is then written back. */
  function PersistSaveAsWritten(m: Blocked, host: string, sel: string, readFails: bool, writeFails: bool): Blocked
  {
    if writeFails then m else AddSelector(if readFails then map[] else m, host, sel)
  }

  /** One failed read during a save, and the selectors of every other host are gone. */
  lemma SaveAfterReadErrorAsWritten()
    ensures var m := map["news.example" := ["#ad"]];
      && PersistSaveAsWritten(m, "video.example", "#promo", true, false) == map["video.example" := ["#promo"]]
      && "news.example" !in PersistSaveAsWritten(m, "video.example", "#promo", true, false)
      && PersistSave(m, "video.example", "#promo", true, false) == m
  {
  }

  /** The persisting callback of `clearAllBlocks`: only `host`'s key goes (content.js:178-184). */
  function PersistClear(m: Blocked, host: string, readFails: bool, writeFails: bool): (r: Blocked)
    ensures forall h | h != host :: (h in r <==> h in m) && (h in m ==> r[h] == m[h])
    ensures !readFails && !writeFails ==> host !in r
    ensures readFails || writeFails ==> r == m
  {
    if readFails || writeFails then m else m - {host}
  }

  /** As written: after a failed read, the empty map minus `host` is written back. */
  function PersistClearAsWritten(m: Blocked, host: string, readFails: bool, writeFails: bool): Blocked
  {
    if writeFails then m else (if readFails then map[] else m) - {host}
  }

  lemma ClearAfterReadErrorAsWritten()
    ensures var m := map["news.example" := ["#ad"], "video.example" := ["#promo"]];
      && PersistClearAsWritten(m, "video.example", true, false) == map[]
      && PersistClear(m, "video.example", true, false) == m
  {
  }

  /** The in-memory cache and the stored list of `host` say the same thing. */
  predicate Converged(cache: seq<string>, m: Blocked, host: string)
  {
    if host in m then m[host] == cache else cache == []
  }
}
