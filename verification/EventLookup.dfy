/** Finding the event a wpa line starts with (event_list, event_comp and the bsearch call
    of src/wpa_parser.c). Strings are C strings without their NUL; chars are bytes. */
module EventLookup {
  import opened Wrappers

  const END: char := '\0'
  const BLANK: char := ' '

  predicate Text(s: string) {
    forall i :: 0 <= i < |s| ==> s[i] != END
  }

  function At(s: string, i: nat): char {
    if i < |s| then s[i] else END
  }

  /** The sign of strncmp(k, name, strlen(name)). */
  function StrNCmp(k: string, name: string): int {
    if name == [] then 0
    else if At(k, 0) < name[0] then -1
    else if At(k, 0) > name[0] then 1
    else if name[0] == END then 0
    else StrNCmp(k[1..], name[1..])
  }

  /** event_comp: the name must be followed by a blank or the end of the key. */
  function Compare(k: string, name: string): int {
    var r := StrNCmp(k, name);
    if r != 0 then r
    else if At(k, |name|) != END && At(k, |name|) != BLANK then 1
    else 0
  }

  /** The key is the name, alone or followed by a blank. */
  predicate Names(k: string, name: string) {
    name <= k && (|k| == |name| || k[|name|] == BLANK)
  }

  lemma {:induction false} StrNCmpZero(k: string, name: string)
    requires Text(k) && Text(name)
    ensures StrNCmp(k, name) == 0 <==> name <= k
  {
    if name != [] && k != [] && k[0] == name[0] {
      StrNCmpZero(k[1..], name[1..]);
      assert name <= k <==> name[1..] <= k[1..] by {
        assert k == [k[0]] + k[1..] && name == [name[0]] + name[1..];
      }
    }
  }

  /** The comparison finds exactly the keys that name the event. */
  lemma CompareZero(k: string, name: string)
    requires Text(k) && Text(name)
    ensures Compare(k, name) == 0 <==> Names(k, name)
  {
    StrNCmpZero(k, name);
  }

  // ----- the order of the table -----

  /** a comes before b, and every key that names a comes before b as well. */
  predicate Below(a: string, b: string) {
    b != [] &&
    (if a == [] then b[0] > BLANK
     else a[0] < b[0] || (a[0] == b[0] && Below(a[1..], b[1..])))
  }

  lemma {:induction false} BelowTransitive(a: string, b: string, c: string)
    requires Below(a, b) && Below(b, c)
    ensures Below(a, c)
  {
    if a != [] && a[0] == b[0] && b[0] == c[0] {
      BelowTransitive(a[1..], b[1..], c[1..]);
    }
  }

  predicate Sorted(table: seq<string>) {
    forall i :: 0 <= i < |table| - 1 ==> Below(table[i], table[i + 1])
  }

  predicate TextTable(table: seq<string>) {
    forall i :: 0 <= i < |table| ==> Text(table[i])
  }

  lemma {:induction false} SortedPairs(table: seq<string>, i: nat, j: nat)
    requires Sorted(table) && i < j < |table|
    ensures Below(table[i], table[j])
    decreases j
  {
    if i < j - 1 {
      SortedPairs(table, i, j - 1);
      BelowTransitive(table[i], table[j - 1], table[j]);
    }
  }

  predicate LexLess(a: string, b: string) {
    b != [] && (a == [] || a[0] < b[0] || (a[0] == b[0] && LexLess(a[1..], b[1..])))
  }

  /** Names in alphabetical order are in the order the search needs when neither is a
      prefix of the other, or when no name contains a blank or a control character. */
  lemma {:induction false} LexLessBelow(a: string, b: string)
    requires LexLess(a, b) && (!(a <= b) || forall i :: 0 <= i < |b| ==> b[i] > BLANK)
    ensures Below(a, b)
  {
    if a != [] && a[0] == b[0] {
      assert a == [a[0]] + a[1..] && b == [b[0]] + b[1..];
      LexLessBelow(a[1..], b[1..]);
    }
  }

  /** So any alphabetical table in which no name is a prefix of another will do. */
  lemma PrefixFreeSorted(table: seq<string>)
    requires forall i :: 0 <= i < |table| - 1 ==> LexLess(table[i], table[i + 1])
    requires forall i, j :: 0 <= i < |table| && 0 <= j < |table| && i != j ==> !(table[i] <= table[j])
    ensures Sorted(table)
  {
    forall i | 0 <= i < |table| - 1
      ensures Below(table[i], table[i + 1])
    {
      LexLessBelow(table[i], table[i + 1]);
    }
  }

  /** The heart of the search: a key at or before a name is before all later names. */
  lemma {:induction false} CompareMonotone(k: string, a: string, b: string)
    requires Text(k) && Text(a) && Text(b) && Below(a, b) && Compare(k, a) <= 0
    ensures Compare(k, b) < 0
  {
    if a != [] && a[0] == b[0] && k != [] && k[0] == a[0] {
      TailCompare(k, a);
      TailCompare(k, b);
      CompareMonotone(k[1..], a[1..], b[1..]);
    }
  }

  lemma TailCompare(k: string, name: string)
    requires k != [] && name != [] && k[0] == name[0] != END
    ensures Compare(k, name) == Compare(k[1..], name[1..])
  {
  }

  // ----- the search -----

  /** The first entry that matches. */
  function Scan(table: seq<string>, k: string, from: nat): (r: Option<nat>)
    requires from <= |table|
    ensures r.Some? ==> from <= r.value < |table| && Compare(k, table[r.value]) == 0
    decreases |table| - from
  {
    if from == |table| then None
    else if Compare(k, table[from]) == 0 then Some(from)
    else Scan(table, k, from + 1)
  }

  lemma {:induction false} ScanSkips(table: seq<string>, k: string, from: nat, upto: nat)
    requires from <= upto <= |table| && forall i :: from <= i < upto ==> Compare(k, table[i]) != 0
    ensures Scan(table, k, from) == Scan(table, k, upto)
    decreases upto - from
  {
    if from < upto {
      ScanSkips(table, k, from + 1, upto);
    }
  }

  lemma Bounds(table: seq<string>, k: string, mid: nat)
    requires Text(k) && TextTable(table) && Sorted(table) && mid < |table|
    ensures Compare(k, table[mid]) <= 0 ==> forall i :: mid < i < |table| ==> Compare(k, table[i]) < 0
    ensures Compare(k, table[mid]) >= 0 ==> forall i :: 0 <= i < mid ==> Compare(k, table[i]) > 0
  {
    forall i | 0 <= i < |table| && i != mid
      ensures i > mid && Compare(k, table[mid]) <= 0 ==> Compare(k, table[i]) < 0
      ensures i < mid && Compare(k, table[mid]) >= 0 ==> Compare(k, table[i]) > 0
    {
      if i > mid {
        SortedPairs(table, mid, i);
        if Compare(k, table[mid]) <= 0 {
          CompareMonotone(k, table[mid], table[i]);
        }
      } else {
        SortedPairs(table, i, mid);
        if Compare(k, table[i]) <= 0 {
          CompareMonotone(k, table[i], table[mid]);
        }
      }
    }
  }

  /** bsearch, whichever entry of the remaining range the library looks at: it finds what
      a scan of the whole table finds. */
  method BinarySearch(table: seq<string>, k: string) returns (r: Option<nat>)
    requires Text(k) && TextTable(table) && Sorted(table)
    ensures r == Scan(table, k, 0)
  {
    var lo, hi := 0, |table|;
    while lo < hi
      invariant 0 <= lo <= hi <= |table|
      invariant forall i :: 0 <= i < lo ==> Compare(k, table[i]) > 0
      invariant forall i :: hi <= i < |table| ==> Compare(k, table[i]) < 0
      decreases hi - lo
    {
      var mid :| lo <= mid < hi;
      Bounds(table, k, mid);
      var c := Compare(k, table[mid]);
      if c < 0 {
        hi := mid;
      } else if c > 0 {
        lo := mid + 1;
      } else {
        ScanSkips(table, k, 0, mid);
        return Some(mid);
      }
    }
    ScanSkips(table, k, 0, |table|);
    r := None;
  }

  // ----- the events -----

  datatype Event =
    | ApStaConnected | ApStaDisconnected | P2pDeviceFound | P2pFindStopped | P2pGoNegFailure
    | P2pGoNegRequest | P2pGoNegSuccess | P2pGroupFormationFailure | P2pGroupFormationSuccess
    | P2pGroupRemoved | P2pGroupStarted | P2pInvitationReceived | P2pInvitationResult | P2pProvDiscEnterPin
    | P2pProvDiscPbcReq | P2pProvDiscPbcResp | P2pProvDiscShowPin | P2pServDiscReq | P2pServDiscResp

  /** owfd_wpa_event_name */
  function EventName(e: Event): string {
    match e
    case ApStaConnected => "AP-STA-CONNECTED"
    case ApStaDisconnected => "AP-STA-DISCONNECTED"
    case P2pDeviceFound => "P2P-DEVICE-FOUND"
    case P2pFindStopped => "P2P-FIND-STOPPED"
    case P2pGoNegFailure => "P2P-GO-NEG-FAILURE"
    case P2pGoNegRequest => "P2P-GO-NEG-REQUEST"
    case P2pGoNegSuccess => "P2P-GO-NEG-SUCCESS"
    case P2pGroupFormationFailure => "P2P-GROUP-FORMATION-FAILURE"
    case P2pGroupFormationSuccess => "P2P-GROUP-FORMATION-SUCCESS"
    case P2pGroupRemoved => "P2P-GROUP-REMOVED"
    case P2pGroupStarted => "P2P-GROUP-STARTED"
    case P2pInvitationReceived => "P2P-INVITATION-RECEIVED"
    case P2pInvitationResult => "P2P-INVITATION-RESULT"
    case P2pProvDiscEnterPin => "P2P-PROV-DISC-ENTER-PIN"
    case P2pProvDiscPbcReq => "P2P-PROV-DISC-PBC-REQ"
    case P2pProvDiscPbcResp => "P2P-PROV-DISC-PBC-RESP"
    case P2pProvDiscShowPin => "P2P-PROV-DISC-SHOW-PIN"
    case P2pServDiscReq => "P2P-SERV-DISC-REQ"
    case P2pServDiscResp => "P2P-SERV-DISC-RESP"
  }

  /** The events in the order of the table. */
  const EVENT_LIST: seq<Event> := [
    ApStaConnected, ApStaDisconnected, P2pDeviceFound, P2pFindStopped, P2pGoNegFailure, P2pGoNegRequest,
    P2pGoNegSuccess, P2pGroupFormationFailure, P2pGroupFormationSuccess, P2pGroupRemoved, P2pGroupStarted,
    P2pInvitationReceived, P2pInvitationResult, P2pProvDiscEnterPin, P2pProvDiscPbcReq, P2pProvDiscPbcResp,
    P2pProvDiscShowPin, P2pServDiscReq, P2pServDiscResp]

  /** Where an event stands in the table. */
  function Position(e: Event): (i: nat)
    ensures i < |EVENT_LIST| && EVENT_LIST[i] == e
  {
    match e
    case ApStaConnected => 0
    case ApStaDisconnected => 1
    case P2pDeviceFound => 2
    case P2pFindStopped => 3
    case P2pGoNegFailure => 4
    case P2pGoNegRequest => 5
    case P2pGoNegSuccess => 6
    case P2pGroupFormationFailure => 7
    case P2pGroupFormationSuccess => 8
    case P2pGroupRemoved => 9
    case P2pGroupStarted => 10
    case P2pInvitationReceived => 11
    case P2pInvitationResult => 12
    case P2pProvDiscEnterPin => 13
    case P2pProvDiscPbcReq => 14
    case P2pProvDiscPbcResp => 15
    case P2pProvDiscShowPin => 16
    case P2pServDiscReq => 17
    case P2pServDiscResp => 18
  }

  function EventTable(): (table: seq<string>) {
    seq(|EVENT_LIST|, i requires 0 <= i < |EVENT_LIST| => EventName(EVENT_LIST[i]))
  }

  lemma {:induction false} DivergesAt(a: string, b: string, p: nat)
    requires p < |a| && p < |b| && a[p] < b[p] && a[..p] == b[..p]
    ensures Below(a, b)
    decreases p
  {
    if p > 0 {
      assert a[..p][0] == b[..p][0];
      assert a[1..][..p - 1] == a[..p][1..] && b[1..][..p - 1] == b[..p][1..];
      DivergesAt(a[1..], b[1..], p - 1);
    }
  }

  lemma StationsOrdered()
    ensures Below(EventName(ApStaConnected), EventName(ApStaDisconnected))
    ensures Below(EventName(ApStaDisconnected), EventName(P2pDeviceFound))
    ensures Below(EventName(P2pDeviceFound), EventName(P2pFindStopped))
  {
    hide Below;
    DivergesAt(EventName(ApStaConnected), EventName(ApStaDisconnected), 7);
    DivergesAt(EventName(ApStaDisconnected), EventName(P2pDeviceFound), 0);
    DivergesAt(EventName(P2pDeviceFound), EventName(P2pFindStopped), 4);
  }

  lemma NegotiationOrdered()
    ensures Below(EventName(P2pFindStopped), EventName(P2pGoNegFailure))
    ensures Below(EventName(P2pGoNegFailure), EventName(P2pGoNegRequest))
    ensures Below(EventName(P2pGoNegRequest), EventName(P2pGoNegSuccess))
  {
    hide Below;
    DivergesAt(EventName(P2pFindStopped), EventName(P2pGoNegFailure), 4);
    DivergesAt(EventName(P2pGoNegFailure), EventName(P2pGoNegRequest), 11);
    DivergesAt(EventName(P2pGoNegRequest), EventName(P2pGoNegSuccess), 11);
  }

  lemma FormationOrdered()
    ensures Below(EventName(P2pGoNegSuccess), EventName(P2pGroupFormationFailure))
    ensures Below(EventName(P2pGroupFormationFailure), EventName(P2pGroupFormationSuccess))
    ensures Below(EventName(P2pGroupFormationSuccess), EventName(P2pGroupRemoved))
  {
    hide Below;
    DivergesAt(EventName(P2pGoNegSuccess), EventName(P2pGroupFormationFailure), 5);
    DivergesAt(EventName(P2pGroupFormationFailure), EventName(P2pGroupFormationSuccess), 20);
    DivergesAt(EventName(P2pGroupFormationSuccess), EventName(P2pGroupRemoved), 10);
  }

  lemma GroupsOrdered()
    ensures Below(EventName(P2pGroupRemoved), EventName(P2pGroupStarted))
    ensures Below(EventName(P2pGroupStarted), EventName(P2pInvitationReceived))
    ensures Below(EventName(P2pInvitationReceived), EventName(P2pInvitationResult))
  {
    hide Below;
    DivergesAt(EventName(P2pGroupRemoved), EventName(P2pGroupStarted), 10);
    DivergesAt(EventName(P2pGroupStarted), EventName(P2pInvitationReceived), 4);
    DivergesAt(EventName(P2pInvitationReceived), EventName(P2pInvitationResult), 17);
  }

  lemma InvitationsOrdered()
    ensures Below(EventName(P2pInvitationResult), EventName(P2pProvDiscEnterPin))
    ensures Below(EventName(P2pProvDiscEnterPin), EventName(P2pProvDiscPbcReq))
    ensures Below(EventName(P2pProvDiscPbcReq), EventName(P2pProvDiscPbcResp))
  {
    hide Below;
    DivergesAt(EventName(P2pInvitationResult), EventName(P2pProvDiscEnterPin), 4);
    DivergesAt(EventName(P2pProvDiscEnterPin), EventName(P2pProvDiscPbcReq), 14);
    DivergesAt(EventName(P2pProvDiscPbcReq), EventName(P2pProvDiscPbcResp), 20);
  }

  lemma ProvisionOrdered()
    ensures Below(EventName(P2pProvDiscPbcResp), EventName(P2pProvDiscShowPin))
    ensures Below(EventName(P2pProvDiscShowPin), EventName(P2pServDiscReq))
    ensures Below(EventName(P2pServDiscReq), EventName(P2pServDiscResp))
  {
    hide Below;
    DivergesAt(EventName(P2pProvDiscPbcResp), EventName(P2pProvDiscShowPin), 14);
    DivergesAt(EventName(P2pProvDiscShowPin), EventName(P2pServDiscReq), 4);
    DivergesAt(EventName(P2pServDiscReq), EventName(P2pServDiscResp), 16);
  }

  lemma NamesText(e: Event)
    ensures Text(EventName(e))
  {
    if Position(e) < 4 {
      FirstNamesText(e);
    } else if Position(e) < 7 {
      NegotiationNamesText(e);
    } else if Position(e) < 13 {
      MiddleNamesText(e);
    } else {
      LastNamesText(e);
    }
  }

  lemma FirstNamesText(e: Event)
    requires Position(e) < 4
    ensures Text(EventName(e))
  {
  }

  lemma NegotiationNamesText(e: Event)
    requires 4 <= Position(e) < 7
    ensures Text(EventName(e))
  {
  }

  lemma MiddleNamesText(e: Event)
    requires 7 <= Position(e) < 13
    ensures Text(EventName(e))
  {
  }

  lemma LastNamesText(e: Event)
    requires 13 <= Position(e)
    ensures Text(EventName(e))
  {
  }

  lemma TableText()
    ensures TextTable(EventTable())
  {
    hide EventName, Text;
    forall i | 0 <= i < |EVENT_LIST|
      ensures Text(EventTable()[i])
    {
      NamesText(EVENT_LIST[i]);
    }
  }

  /** The table is in the order the search needs. */
  lemma TableSorted()
    ensures Sorted(EventTable())
  {
    hide EventName, Below;
    StationsOrdered();
    NegotiationOrdered();
    FormationOrdered();
    GroupsOrdered();
    InvitationsOrdered();
    ProvisionOrdered();
  }

  /** Every event is found under its name, alone or followed by a blank and arguments. */
  lemma EventFound(e: Event, rest: string)
    requires Text(rest) && (rest == "" || rest[0] == BLANK)
    ensures Text(EventName(e) + rest)
    ensures var r := Scan(EventTable(), EventName(e) + rest, 0);
            r.Some? && r.value < |EVENT_LIST| && EVENT_LIST[r.value] == e
  {
    var k, table := EventName(e) + rest, EventTable();
    var i := Position(e);
    NamesText(e);
    TableText();
    TableSorted();
    assert table[i] == EventName(e) && |table| == |EVENT_LIST|;
    hide *;
    CompareZero(k, table[i]);
    Bounds(table, k, i);
    ScanSkips(table, k, 0, i);
  }

  datatype Found = Unknown | Known(event: Event)

  /** The search over the real table: the result is the only event that the key names,
      if there is one. */
  method FindEvent(k: string) returns (r: Found)
    requires Text(k)
    ensures forall e: Event :: Names(k, EventName(e)) <==> r == Known(e)
  {
    hide EventName, Compare;
    TableText();
    TableSorted();
    var i := BinarySearch(EventTable(), k);
    r := if i.None? then Unknown else Known(EVENT_LIST[i.value]);
    forall e: Event
      ensures Names(k, EventName(e)) <==> r == Known(e)
    {
      var j := Position(e);
      OnlyMatch(EventTable(), k, j);
      if i.Some? {
        OnlyMatch(EventTable(), k, i.value);
      }
    }
  }

  /** At most one entry matches, and the scan finds it. */
  lemma OnlyMatch(table: seq<string>, k: string, j: nat)
    requires Text(k) && TextTable(table) && Sorted(table) && j < |table|
    ensures Names(k, table[j]) <==> Scan(table, k, 0) == Some(j)
  {
    CompareZero(k, table[j]);
    if Names(k, table[j]) {
      Bounds(table, k, j);
      ScanSkips(table, k, 0, j);
    }
  }

  // ----- the lines of the tests -----

  /** The first word of the line that the tests of the parser have for every event
      (test/test_wpa.c:40-58). */
  function TestWord(e: Event): string {
    match e
    case ApStaConnected => "AP-STA-CONNECTED"
    case ApStaDisconnected => "AP-STA-DISCONNECTED"
    case P2pDeviceFound => "P2P-DEVICE-FOUND"
    case P2pFindStopped => "P2P-FIND-STOPPED"
    case P2pGoNegFailure => "P2P-GO-NEG-FAILURE"
    case P2pGoNegRequest => "P2P-GO-NEG-REQUEST"
    case P2pGoNegSuccess => "P2P-GO-NEG-SUCCESS"
    case P2pGroupFormationFailure => "P2P-GROUP-FORMATION-FAILURE"
    case P2pGroupFormationSuccess => "P2P-GROUP-FORMATION-SUCCESS"
    case P2pGroupRemoved => "P2P-GROUP-REMOVED"
    case P2pGroupStarted => "P2P-GROUP-STARTED"
    case P2pInvitationReceived => "P2P-INVITATION-RECEIVED"
    case P2pInvitationResult => "P2P-INVITATION-RESULT"
    case P2pProvDiscEnterPin => "P2P-PROV-DISC-ENTER-PIN"
    case P2pProvDiscPbcReq => "P2P-PROV-DISC-PBC-REQ"
    case P2pProvDiscPbcResp => "P2P-PROV-DISC-PBC-RESP"
    case P2pProvDiscShowPin => "P2P-PROV-DISC-SHOW-PIN"
    case P2pServDiscReq => "P2P-SERV-DISC-REQ"
    case P2pServDiscResp => "P2P-SERV-DISC-RESP"
  }

  /** Each of them, with any arguments, names its event and no other. */
  lemma TestLinesName(e: Event, rest: string, f: Event)
    requires Text(rest) && (rest == "" || rest[0] == BLANK)
    ensures Names(TestWord(e) + rest, EventName(f)) <==> e == f
  {
    assert TestWord(e) == EventName(e);
    EventFound(e, rest);
    assert Names(EventName(e) + rest, EventName(e));
    hide EventName, TestWord, Names, Text, Scan;
    NamesOne(TestWord(e) + rest, e, f);
  }

  /** No key names two events. */
  lemma NamesOne(k: string, e: Event, f: Event)
    requires Text(k) && Names(k, EventName(e))
    ensures Names(k, EventName(f)) ==> e == f
  {
    hide EventName, Names, Text, Scan;
    TableText();
    TableSorted();
    OnlyMatch(EventTable(), k, Position(e));
    OnlyMatch(EventTable(), k, Position(f));
  }
}
