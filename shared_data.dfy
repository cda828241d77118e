/**
 * The tag-presence table shared by the scanner and the web view
 * (shared_data.py). The clock is a parameter `now` in integer
 * microseconds; the dictionaries are maps, with the insertion order of
 * `active_tags` kept beside them because `cleanup_old_tags` visits the
 * tags in that order.
 */
module SharedData {
  import opened Bytes

  /** Activities kept by `add_tag_detection` (shared_data.py:87-89). */
  const MaxRecentActivity: nat := 50
  /** Activities handed to the web view (shared_data.py:171). */
  const WebRecentActivity: nat := 20
  /** Ids longer than this are shortened for display (shared_data.py:78). */
  const DisplayIdLength: nat := 20
  /** One second on the model's clock. */
  const Second: nat := 1_000_000

  /** What `active_tags` holds per tag (shared_data.py:70-75). */
  datatype TagInfo = TagInfo(firstSeen: int, lastSeen: int, count: nat, data: seq<byte>)

  /** The signal label of the web view (shared_data.py:95-100). */
  datatype SignalStrength = New | Weak | Medium | Strong

  /** What `web_active_tags` holds per tag (shared_data.py:102-110); times are kept unformatted. */
  datatype WebTag = WebTag(
    id: string,
    fullId: string,
    firstSeen: int,
    lastSeen: int,
    count: nat,
    signalStrength: SignalStrength,
    duration: int)

  datatype ActivityKind = NewTag | TagRemoved

  /** One entry of `recent_activity`; its message text is not modelled beyond the display id. */
  datatype Activity = Activity(time: int, kind: ActivityKind, displayId: string, tagId: string)

  /** `get_statistics()` (shared_data.py:174-183). */
  datatype Statistics = Statistics(activeTags: nat, totalDetections: nat, totalScans: nat, connected: bool, scanning: bool)

  /** `get_web_data()` (shared_data.py:157-172), without the floating-point scan rate and uptime. */
  datatype WebData = WebData(
    totalScans: nat,
    totalDetections: nat,
    activeTagCount: nat,
    connectionStatus: string,
    scanning: bool,
    activeTags: map<string, WebTag>,
    recentActivity: seq<Activity>)

  /** The id shown for a tag: at most 20 characters, then `...` (shared_data.py:78, 93, 127). */
  function DisplayId(tagHex: string): (d: string)
    ensures |tagHex| <= DisplayIdLength ==> d == tagHex
    ensures |tagHex| > DisplayIdLength ==>
      && |d| == DisplayIdLength + 3
      && d[..DisplayIdLength] == tagHex[..DisplayIdLength]
      && d[DisplayIdLength..] == "..."
  {
    if |tagHex| > DisplayIdLength then tagHex[..DisplayIdLength] + "..." else tagHex
  }

  function Max(a: int, b: int): int { if a < b then b else a }

  /**
   * The detection rate `count / max(1, seconds)` compared with 2 and 0.5,
   * with both sides scaled by the microseconds in a second so that the
   * comparison is exact.
   */
  function Signal(count: nat, elapsed: int): SignalStrength
  {
    if count > 1 then
      var span := Max(Second, elapsed);
      if count * Second > 2 * span then Strong
      else if 2 * count * Second > span then Medium
      else Weak
    else New
  }

  function Rank(s: SignalStrength): nat
  {
    match s
    case New => 0
    case Weak => 1
    case Medium => 2
    case Strong => 3
  }

  /** Over the same time span, more detections never give a weaker label (once the tag is not new). */
  lemma SignalMonotone(count: nat, more: nat, elapsed: int)
    requires 1 < count <= more
    ensures Rank(Signal(count, elapsed)) <= Rank(Signal(more, elapsed))
  {
    var span := Max(Second, elapsed);
    assert count * Second <= more * Second;
  }

  /** The web entry written for a tag as of its latest detection (shared_data.py:92-110). */
  function WebEntry(tagHex: string, info: TagInfo): (w: WebTag)
  {
    WebTag(DisplayId(tagHex), tagHex, info.firstSeen, info.lastSeen, info.count,
           Signal(info.count, info.lastSeen - info.firstSeen), info.lastSeen - info.firstSeen)
  }

  /** No id appears twice. */
  predicate Distinct(s: seq<string>)
  {
    forall i, j | 0 <= i < j < |s| :: s[i] != s[j]
  }

  /** `s` without the ids in `gone`, in the same order. */
  function Excluding(s: seq<string>, gone: set<string>): (r: seq<string>)
    ensures forall x :: x in r <==> x in s && x !in gone
  {
    if s == [] then []
    else if s[|s| - 1] in gone then Excluding(s[..|s| - 1], gone)
    else Excluding(s[..|s| - 1], gone) + [s[|s| - 1]]
  }

  /** Excluding ids keeps the remaining ones distinct. */
  lemma {:induction false} ExcludingDistinct(s: seq<string>, gone: set<string>)
    requires Distinct(s)
    ensures Distinct(Excluding(s, gone))
  {
    if s != [] {
      ExcludingDistinct(s[..|s| - 1], gone);
    }
  }

  /** Excluding nothing keeps the list. */
  lemma {:induction false} ExcludingNothing(s: seq<string>)
    ensures Excluding(s, {}) == s
  {
    if s != [] {
      ExcludingNothing(s[..|s| - 1]);
    }
  }

  /** Excluding one more id is excluding the larger set. */
  lemma {:induction false} ExcludingOneMore(s: seq<string>, gone: set<string>, x: string)
    ensures Excluding(Excluding(s, gone), {x}) == Excluding(s, gone + {x})
  {
    if s != [] {
      var init, last := s[..|s| - 1], s[|s| - 1];
      ExcludingOneMore(init, gone, x);
      if last !in gone {
        var e := Excluding(init, gone) + [last];
        assert e[..|e| - 1] == Excluding(init, gone);
      }
    }
  }

  /** The ids `s` holds. */
  function Elements(s: seq<string>): set<string>
  {
    set x | x in s
  }

  /** Appending an id not yet listed keeps the list distinct and adds just that id. */
  lemma AppendNew(s: seq<string>, x: string)
    requires Distinct(s) && x !in Elements(s)
    ensures Distinct(s + [x]) && Elements(s + [x]) == Elements(s) + {x}
  {
  }

  /** Whether `cleanup_old_tags` drops the tag: inactive for longer than the interval (shared_data.py:122-123). */
  predicate IsStale(tags: map<string, TagInfo>, id: string, now: int, interval: int)
  {
    id in tags && now - tags[id].lastSeen > interval
  }

  /** The ids `cleanup_old_tags` collects, visiting `ids` in order (shared_data.py:121-124). */
  function StaleTags(ids: seq<string>, tags: map<string, TagInfo>, now: int, interval: int): (r: seq<string>)
    ensures |r| <= |ids|
  {
    if ids == [] then []
    else
      var init, last := ids[..|ids| - 1], ids[|ids| - 1];
      StaleTags(init, tags, now, interval) + (if IsStale(tags, last, now, interval) then [last] else [])
  }

  /** A tag is collected exactly when it is listed and stale. */
  lemma {:induction false} StaleTagsExact(ids: seq<string>, tags: map<string, TagInfo>, now: int, interval: int, x: string)
    ensures x in StaleTags(ids, tags, now, interval) <==> x in ids && IsStale(tags, x, now, interval)
  {
    if ids != [] {
      StaleTagsExact(ids[..|ids| - 1], tags, now, interval, x);
      assert x in ids <==> x in ids[..|ids| - 1] || x == ids[|ids| - 1];
    }
  }

  /** Collected ids keep the order of the visit and are distinct when the visited ids are. */
  lemma {:induction false} StaleTagsDistinct(ids: seq<string>, tags: map<string, TagInfo>, now: int, interval: int)
    requires Distinct(ids)
    ensures Distinct(StaleTags(ids, tags, now, interval))
  {
    if ids != [] {
      var init := ids[..|ids| - 1];
      StaleTagsDistinct(init, tags, now, interval);
      StaleTagsExact(init, tags, now, interval, ids[|ids| - 1]);
    }
  }

  /** The activities `cleanup_old_tags` puts in front, one per removed id, the last removed first (shared_data.py:126-134). */
  function RemovalActivities(removed: seq<string>, now: int): (r: seq<Activity>)
    ensures |r| == |removed|
  {
    if removed == [] then []
    else
      var init, last := removed[..|removed| - 1], removed[|removed| - 1];
      [Activity(now, TagRemoved, DisplayId(last), last)] + RemovalActivities(init, now)
  }

  /** The `i`-th new activity announces the `i`-th removed id counted from the end. */
  lemma {:induction false} RemovalActivityAt(removed: seq<string>, now: int, i: nat)
    requires i < |removed|
    ensures RemovalActivities(removed, now)[i] == Activity(now, TagRemoved, DisplayId(removed[|removed| - 1 - i]), removed[|removed| - 1 - i])
  {
    if i > 0 {
      RemovalActivityAt(removed[..|removed| - 1], now, i - 1);
    }
  }

  /** `lst[:n]`. */
  function Take(activities: seq<Activity>, n: nat): (r: seq<Activity>)
    ensures |r| <= n && |r| <= |activities| && r == activities[..|r|]
    ensures |activities| <= n ==> r == activities
  {
    if |activities| <= n then activities else activities[..n]
  }

  /** The connection text `update_connection_status` sets (shared_data.py:45-48). */
  function ConnectionText(connected: bool, status: string): (text: string)
    ensures status != "" ==> text == status
    ensures status == "" ==> (text == "Connected" <==> connected)
  {
    if status != "" then status else if connected then "Connected" else "Disconnected"
  }

  /**
   * The invariant of the table: the two dictionaries hold the same tags,
   * each web entry mirrors its tag's latest detection, every tag was
   * detected at least once, and the order lists each tag once.
   */
  predicate Consistent(activeTags: map<string, TagInfo>, webActiveTags: map<string, WebTag>, order: seq<string>)
  {
    && webActiveTags.Keys == activeTags.Keys
    && (forall t | t in activeTags :: webActiveTags[t] == WebEntry(t, activeTags[t]))
    && (forall t | t in activeTags :: activeTags[t].count >= 1)
    && Distinct(order)
    && Elements(order) == activeTags.Keys
  }

  /** A detection, of a known or a new tag, keeps the table consistent. */
  lemma DetectionKeepsConsistent(activeTags: map<string, TagInfo>, webActiveTags: map<string, WebTag>, order: seq<string>,
                                 tagHex: string, info: TagInfo)
    requires Consistent(activeTags, webActiveTags, order) && info.count >= 1
    ensures Consistent(activeTags[tagHex := info], webActiveTags[tagHex := WebEntry(tagHex, info)],
                       if tagHex in activeTags then order else order + [tagHex])
  {
    var active', web' := activeTags[tagHex := info], webActiveTags[tagHex := WebEntry(tagHex, info)];
    assert web'.Keys == active'.Keys == activeTags.Keys + {tagHex};
    forall t | t in active'
      ensures web'[t] == WebEntry(t, active'[t]) && active'[t].count >= 1
    {
      if t != tagHex {
        assert active'[t] == activeTags[t] && web'[t] == webActiveTags[t];
      }
    }
    if tagHex !in activeTags {
      AppendNew(order, tagHex);
    }
  }

  /** Removing tags from both dictionaries and from the order keeps the table consistent. */
  lemma RemovalKeepsConsistent(activeTags: map<string, TagInfo>, webActiveTags: map<string, WebTag>, order: seq<string>,
                               gone: set<string>)
    requires Consistent(activeTags, webActiveTags, order)
    ensures Consistent(activeTags - gone, webActiveTags - gone, Excluding(order, gone))
  {
    ExcludingDistinct(order, gone);
  }

  /** The module-level `shared_rfid_data` (shared_data.py:16-39), without the lock and the float fields. */
  class SharedRfidData {
    var connected: bool
    var scanning: bool
    var connectionStatus: string
    var activeTags: map<string, TagInfo>
    /** The insertion order of `active_tags`. */
    var order: seq<string>
    var recentActivity: seq<Activity>
    var totalScans: nat
    var totalDetections: nat
    /** `start_time`, zero until scanning first starts. */
    var startTime: int
    var webActiveTags: map<string, WebTag>

    /** See `Consistent`. */
    predicate Valid()
      reads this
    {
      Consistent(activeTags, webActiveTags, order)
    }

    /** The dataclass defaults (shared_data.py:20-36). */
    constructor ()
      ensures Valid()
      ensures !connected && !scanning && connectionStatus == "Disconnected"
      ensures activeTags == map[] && order == [] && recentActivity == [] && webActiveTags == map[]
      ensures totalScans == 0 && totalDetections == 0 && startTime == 0
    {
      connected, scanning, connectionStatus := false, false, "Disconnected";
      activeTags, order, recentActivity, webActiveTags := map[], [], [], map[];
      totalScans, totalDetections, startTime := 0, 0, 0;
    }

    /** `update_connection_status` (shared_data.py:41-48). */
    method UpdateConnectionStatus(connected: bool, status: string := "")
      modifies this`connected, this`connectionStatus
      ensures this.connected == connected && connectionStatus == ConnectionText(connected, status)
    {
      this.connected := connected;
      if status != "" {
        connectionStatus := status;
      } else {
        connectionStatus := if connected then "Connected" else "Disconnected";
      }
    }

    /** `update_scanning_status` (shared_data.py:50-55): the start time is taken only the first time scanning turns on. */
    method UpdateScanningStatus(scanning: bool, now: int)
      modifies this`scanning, this`startTime
      ensures this.scanning == scanning
      ensures startTime == if scanning && old(startTime) == 0 then now else old(startTime)
    {
      this.scanning := scanning;
      if scanning && startTime == 0 {
        startTime := now;
      }
    }

    /** `update_scan_statistics` (shared_data.py:145-148), without the floating-point rate and uptime. */
    method UpdateScanStatistics(scanCount: nat)
      modifies this`totalScans
      ensures totalScans == scanCount
    {
      totalScans := scanCount;
    }

    /** `add_tag_detection` (shared_data.py:57-112) at time `now`. */
    method AddTagDetection(tagHex: string, tagData: seq<byte>, now: int)
      requires Valid()
      modifies this`activeTags, this`order, this`recentActivity, this`webActiveTags, this`totalDetections
      ensures Valid()
      ensures var info := if tagHex in old(activeTags)
          then old(activeTags)[tagHex].(lastSeen := now, count := old(activeTags)[tagHex].count + 1)
          else TagInfo(now, now, 1, tagData);
        && activeTags == old(activeTags)[tagHex := info]
        && webActiveTags == old(webActiveTags)[tagHex := WebEntry(tagHex, info)]
      ensures tagHex in old(activeTags) ==> order == old(order) && recentActivity == old(recentActivity)
      ensures tagHex !in old(activeTags) ==>
        && order == old(order) + [tagHex]
        && recentActivity == Take([Activity(now, NewTag, DisplayId(tagHex), tagHex)] + old(recentActivity), MaxRecentActivity)
      ensures totalDetections == old(totalDetections) + 1
    {
      var info: TagInfo;
      if tagHex in activeTags {
        var tagInfo := activeTags[tagHex];
        info := tagInfo.(lastSeen := now, count := tagInfo.count + 1);
      } else {
        info := TagInfo(now, now, 1, tagData);
      }
      DetectionKeepsConsistent(activeTags, webActiveTags, order, tagHex, info);
      if tagHex !in activeTags {
        order := order + [tagHex];
        var activity := Activity(now, NewTag, DisplayId(tagHex), tagHex);
        recentActivity := [activity] + recentActivity;
        if |recentActivity| > MaxRecentActivity {
          recentActivity := recentActivity[..MaxRecentActivity];
        }
      }
      activeTags := activeTags[tagHex := info];
      webActiveTags := webActiveTags[tagHex := WebEntry(tagHex, info)];
      totalDetections := totalDetections + 1;
    }

    /** `cleanup_old_tags` (shared_data.py:114-143) at time `now`; the interval is in microseconds. */
    method CleanupOldTags(now: int, cleanupInterval: int := 5 * Second) returns (toRemove: seq<string>)
      requires Valid()
      modifies this`activeTags, this`webActiveTags, this`order, this`recentActivity
      ensures Valid()
      ensures toRemove == StaleTags(old(order), old(activeTags), now, cleanupInterval)
      ensures activeTags == old(activeTags) - Elements(toRemove)
      ensures webActiveTags == old(webActiveTags) - Elements(toRemove)
      ensures order == Excluding(old(order), Elements(toRemove))
      ensures recentActivity == RemovalActivities(toRemove, now) + old(recentActivity)
    {
      toRemove := CollectStaleTags(now, cleanupInterval);
      RemovalKeepsConsistent(activeTags, webActiveTags, order, Elements(toRemove));
      DeleteTags(toRemove);
    }

    /**
     * The collecting loop of `cleanup_old_tags` (shared_data.py:121-134):
     * the stale tags in insertion order, each announced at the front of the
     * activity list.
     */
    method CollectStaleTags(now: int, cleanupInterval: int) returns (toRemove: seq<string>)
      requires Elements(order) <= activeTags.Keys
      modifies this`recentActivity
      ensures toRemove == StaleTags(order, activeTags, now, cleanupInterval)
      ensures recentActivity == RemovalActivities(toRemove, now) + old(recentActivity)
    {
      toRemove := [];
      for i := 0 to |order|
        invariant toRemove == StaleTags(order[..i], activeTags, now, cleanupInterval)
        invariant recentActivity == RemovalActivities(toRemove, now) + old(recentActivity)
      {
        var tagId := order[i];
        assert order[..i + 1][..i] == order[..i];
        assert tagId in Elements(order);
        assert StaleTags(order[..i + 1], activeTags, now, cleanupInterval)
            == toRemove + (if IsStale(activeTags, tagId, now, cleanupInterval) then [tagId] else []);
        if now - activeTags[tagId].lastSeen > cleanupInterval {
          var activity := Activity(now, TagRemoved, DisplayId(tagId), tagId);
          assert RemovalActivities(toRemove + [tagId], now) == [activity] + RemovalActivities(toRemove, now) by {
            assert (toRemove + [tagId])[..|toRemove|] == toRemove;
          }
          toRemove := toRemove + [tagId];
          recentActivity := [activity] + recentActivity;
        }
      }
      assert order[..|order|] == order;
    }

    /** The deletion loop of `cleanup_old_tags` (shared_data.py:137-141): each id leaves both dictionaries. */
    method DeleteTags(toRemove: seq<string>)
      modifies this`activeTags, this`webActiveTags, this`order
      ensures activeTags == old(activeTags) - Elements(toRemove)
      ensures webActiveTags == old(webActiveTags) - Elements(toRemove)
      ensures order == Excluding(old(order), Elements(toRemove))
    {
      ghost var removedSoFar: set<string> := {};
      ExcludingNothing(order);
      for j := 0 to |toRemove|
        invariant removedSoFar == Elements(toRemove[..j])
        invariant activeTags == old(activeTags) - removedSoFar
        invariant webActiveTags == old(webActiveTags) - removedSoFar
        invariant order == Excluding(old(order), removedSoFar)
      {
        var tagId := toRemove[j];
        assert toRemove[..j + 1] == toRemove[..j] + [tagId];
        assert old(activeTags) - (removedSoFar + {tagId}) == activeTags - {tagId};
        assert old(webActiveTags) - (removedSoFar + {tagId}) == webActiveTags - {tagId};
        if tagId in activeTags {
          activeTags := activeTags - {tagId};
        }
        if tagId in webActiveTags {
          webActiveTags := webActiveTags - {tagId};
        }
        ExcludingOneMore(old(order), removedSoFar, tagId);
        order := Excluding(order, {tagId});
        removedSoFar := removedSoFar + {tagId};
      }
      assert toRemove[..|toRemove|] == toRemove;
    }

    /** `get_statistics()` (shared_data.py:174-183). */
    function GetStatistics(): (s: Statistics)
      reads this
      ensures s.activeTags == |activeTags| && s.totalDetections == totalDetections && s.totalScans == totalScans
      ensures s.connected == connected && s.scanning == scanning
    {
      Statistics(|activeTags|, totalDetections, totalScans, connected, scanning)
    }

    /** `get_web_data()` (shared_data.py:157-172): a copy of the web table and the twenty newest activities. */
    function GetWebData(): (w: WebData)
      reads this
      ensures |w.recentActivity| <= WebRecentActivity && |w.recentActivity| <= |recentActivity|
      ensures w.recentActivity == recentActivity[..|w.recentActivity|]
      ensures |recentActivity| >= WebRecentActivity ==> |w.recentActivity| == WebRecentActivity
      ensures |recentActivity| < WebRecentActivity ==> w.recentActivity == recentActivity
      ensures w.activeTags == webActiveTags && w.activeTagCount == |activeTags|
      ensures w.totalScans == totalScans && w.totalDetections == totalDetections
      ensures w.connectionStatus == connectionStatus && w.scanning == scanning
    {
      WebData(totalScans, totalDetections, |activeTags|, connectionStatus, scanning, webActiveTags,
              Take(recentActivity, WebRecentActivity))
    }
  }
}
