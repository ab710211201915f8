/** The data side of `check_multiple_streamers`: the stream records the
    streams endpoint reports as live are indexed by lower-cased login, and
    every configured name is given a status, live or offline, in a dict
    keyed by the name as configured. The HTTP request and the JSON decoding
    happen outside the model; the records arrive already parsed. */
module Streams {
  import opened Results
  import opened Text
  import opened OrderedDict

  /** One element of the response's "data" list. */
  datatype StreamRecord = StreamRecord(
    userLogin: string,
    title: string,
    gameName: string,
    viewerCount: int,
    startedAt: string)

  /** A streamer's state in one poll: live with the stream's details, or
      offline. */
  datatype Status =
    | Live(title: string, game: string, viewerCount: int, startedAt: string)
    | Offline

  /** What the streams endpoint answered: its HTTP status code and, for a 200,
      the decoded records. */
  datatype StreamsResponse = StreamsResponse(statusCode: int, streams: seq<StreamRecord>)

  /** The exception raised for any other status code. */
  datatype FetchError = ApiRequestFailed(statusCode: int)

  /** A status snapshot: configured name to status, in configured order. */
  type Snapshot = Dict<string, Status>

  /** The live status a record stands for. */
  function LiveOf(s: StreamRecord): Status {
    Live(s.title, s.gameName, s.viewerCount, s.startedAt)
  }

  /** Record `i` has `key` as its lower-cased login. */
  ghost predicate LoginMatches(streams: seq<StreamRecord>, i: int, key: string) {
    0 <= i < |streams| && Lower(streams[i].userLogin) == key
  }

  /** Record `i` is the last one whose lower-cased login is `key`. */
  ghost predicate IsLastMatch(streams: seq<StreamRecord>, i: int, key: string) {
    && LoginMatches(streams, i, key)
    && forall j :: i < j < |streams| ==> !LoginMatches(streams, j, key)
  }

  /** check.py lines 86-94: the `live_streamers` dict. Its keys are exactly the
      lower-cased logins of the records, and each key holds the live status
      of the last record with that login: a later record overwrites an
      earlier one. */
  function LiveIndex(streams: seq<StreamRecord>): (index: map<string, Status>)
    ensures forall key :: key in index <==> exists i :: LoginMatches(streams, i, key)
    ensures forall key :: key in index ==> exists i :: IsLastMatch(streams, i, key) && index[key] == LiveOf(streams[i])
    decreases |streams|
  {
    if |streams| == 0 then map[]
    else
      var init := streams[..|streams| - 1];
      var last := streams[|streams| - 1];
      var prev := LiveIndex(init);
      KeysStep(streams, prev);
      LastRecordStep(streams, prev);
      prev[Lower(last.userLogin) := LiveOf(last)]
  }

  /** The keys of `index` are the lower-cased logins of `streams`. */
  ghost predicate KeysAreLogins(index: map<string, Status>, streams: seq<StreamRecord>) {
    forall key :: key in index <==> exists i :: LoginMatches(streams, i, key)
  }

  /** Each key of `index` holds the live status of the last record with that
      login. */
  ghost predicate LastRecordWins(index: map<string, Status>, streams: seq<StreamRecord>) {
    forall key :: key in index ==> exists i :: IsLastMatch(streams, i, key) && index[key] == LiveOf(streams[i])
  }

  /** Recording the last stream on top of the index of the others keeps the
      keys equal to the lower-cased logins. */
  lemma KeysStep(streams: seq<StreamRecord>, prev: map<string, Status>)
    requires |streams| > 0
    requires KeysAreLogins(prev, streams[..|streams| - 1])
    ensures KeysAreLogins(prev[Lower(streams[|streams| - 1].userLogin) := LiveOf(streams[|streams| - 1])], streams)
  {
    var n := |streams| - 1;
    var init := streams[..n];
    var key0 := Lower(streams[n].userLogin);
    var index := prev[key0 := LiveOf(streams[n])];
    assert LoginMatches(streams, n, key0);
    forall key | key in prev
      ensures exists i :: LoginMatches(streams, i, key)
    {
      var i :| LoginMatches(init, i, key);
      assert LoginMatches(streams, i, key);
    }
    forall key | exists i :: LoginMatches(streams, i, key)
      ensures key in index
    {
      var i :| LoginMatches(streams, i, key);
      if i < n {
        assert LoginMatches(init, i, key);
      }
    }
  }

  /** Recording the last stream on top of the index of the others keeps
      every key holding its last record. */
  lemma LastRecordStep(streams: seq<StreamRecord>, prev: map<string, Status>)
    requires |streams| > 0
    requires LastRecordWins(prev, streams[..|streams| - 1])
    ensures LastRecordWins(prev[Lower(streams[|streams| - 1].userLogin) := LiveOf(streams[|streams| - 1])], streams)
  {
    var n := |streams| - 1;
    var init := streams[..n];
    var key0 := Lower(streams[n].userLogin);
    var index := prev[key0 := LiveOf(streams[n])];
    assert IsLastMatch(streams, n, key0);
    forall key | key in index && key != key0
      ensures exists i :: IsLastMatch(streams, i, key) && index[key] == LiveOf(streams[i])
    {
      var i :| IsLastMatch(init, i, key) && prev[key] == LiveOf(init[i]);
      forall j | i < j < |streams|
        ensures !LoginMatches(streams, j, key)
      {
        if j < n {
          assert !LoginMatches(init, j, key);
        }
      }
      assert IsLastMatch(streams, i, key);
    }
  }

  /** check.py lines 99-103: the status of one configured name, looked up by its
      lower-cased form: the indexed status when there is one, offline
      otherwise. */
  function StatusOf(index: map<string, Status>, name: string): Status {
    if Lower(name) in index then index[Lower(name)] else Offline
  }

  /** The lookup ignores case: the upper-cased name has the same status. */
  lemma StatusOfUpper(index: map<string, Status>, name: string)
    ensures StatusOf(index, Upper(name)) == StatusOf(index, name)
  {
    LowerOfUpper(name);
  }

  /** A configured name is offline exactly when no record's login matches it
      ignoring case. */
  lemma StatusOfflineIff(streams: seq<StreamRecord>, name: string)
    ensures StatusOf(LiveIndex(streams), name).Offline?
        <==> forall i :: 0 <= i < |streams| ==> !LoginMatches(streams, i, Lower(name))
  {
    var index := LiveIndex(streams);
    var key := Lower(name);
    if key in index {
      var i :| IsLastMatch(streams, i, key) && index[key] == LiveOf(streams[i]);
      assert LoginMatches(streams, i, key);
    } else {
      forall i | 0 <= i < |streams|
        ensures !LoginMatches(streams, i, key)
      {
        assert LoginMatches(streams, i, key) ==> key in index;
      }
    }
  }

  /** A configured name some record matches carries the details of the last
      matching record. */
  lemma StatusLiveDetails(streams: seq<StreamRecord>, name: string)
    ensures forall i :: IsLastMatch(streams, i, Lower(name)) ==> StatusOf(LiveIndex(streams), name) == LiveOf(streams[i])
  {
    var index := LiveIndex(streams);
    var key := Lower(name);
    forall i | IsLastMatch(streams, i, key)
      ensures StatusOf(index, name) == LiveOf(streams[i])
    {
      assert LoginMatches(streams, i, key);
      assert key in index;
      var i0 :| IsLastMatch(streams, i0, key) && index[key] == LiveOf(streams[i0]);
      assert i0 == i by {
        assert !(i0 < i) && !(i < i0);
      }
      assert StatusOf(index, name) == index[key];
    }
  }

  /** check.py lines 97-105: the `result` dict, filled by assigning `result[name]` for
      each configured name in turn. Its keys are the configured names, each
      once, and each name's entry is its status. */
  function StatusMap(names: seq<string>, index: map<string, Status>): (d: Snapshot)
    ensures Distinct(Keys(d))
    ensures forall name :: name in Keys(d) <==> name in names
    ensures forall i :: 0 <= i < |d| ==> d[i].1 == StatusOf(index, d[i].0)
    decreases |names|
  {
    if |names| == 0 then []
    else
      var init := names[..|names| - 1];
      var name := names[|names| - 1];
      assert forall x :: x in names <==> x in init || x == name;
      Insert(StatusMap(init, index), name, StatusOf(index, name))
  }

  /** The elements of `ks` appear in the order of their first occurrence in
      `names`. */
  ghost predicate FirstOccurrenceOrder(ks: seq<string>, names: seq<string>) {
    forall i, j :: 0 <= i < j < |ks| ==> FirstIndex(names, ks[i]) < FirstIndex(names, ks[j])
  }

  /** The snapshot lists the names in the order of their first occurrence in
      the configuration: a repeated name keeps its first position. */
  lemma {:induction false} StatusMapOrder(names: seq<string>, index: map<string, Status>)
    ensures FirstOccurrenceOrder(Keys(StatusMap(names, index)), names)
    decreases |names|
  {
    if |names| > 0 {
      var init := names[..|names| - 1];
      var name := names[|names| - 1];
      assert names == init + [name];
      StatusMapOrder(init, index);
      var prev := Keys(StatusMap(init, index));
      var ks := Keys(StatusMap(names, index));
      forall i | 0 <= i < |prev|
        ensures FirstIndex(names, prev[i]) == FirstIndex(init, prev[i]) < |init|
      {
        assert prev[i] in init;
        FirstIndexPrefix(init, name, prev[i]);
      }
      if name !in init {
        FirstIndexPrefix(init, name, name);
        assert name !in prev;
        assert ks == prev + [name];
        forall i, j | 0 <= i < j < |ks|
          ensures FirstIndex(names, ks[i]) < FirstIndex(names, ks[j])
        {
          if j < |prev| {
            assert ks[i] == prev[i] && ks[j] == prev[j];
            assert FirstIndex(init, prev[i]) < FirstIndex(init, prev[j]);
          } else {
            assert ks[i] == prev[i] && ks[j] == name;
          }
        }
      } else {
        assert name in prev;
        assert ks == prev;
      }
    }
  }

  lemma {:induction false} FirstIndexPrefix<T>(s: seq<T>, y: T, x: T)
    ensures x in s ==> FirstIndex(s + [y], x) == FirstIndex(s, x) < |s|
    ensures x !in s && x == y ==> FirstIndex(s + [y], x) == |s|
    decreases |s|
  {
    if |s| > 0 {
      FirstIndexPrefix(s[1..], y, x);
      assert (s + [y])[1..] == s[1..] + [y];
    }
  }

  /** With no repeated name, the snapshot has exactly the configured names,
      in configured order. */
  lemma {:induction false} StatusMapDistinctNames(names: seq<string>, index: map<string, Status>)
    requires Distinct(names)
    ensures Keys(StatusMap(names, index)) == names
    decreases |names|
  {
    if |names| > 0 {
      var init := names[..|names| - 1];
      var name := names[|names| - 1];
      DistinctInit(names);
      StatusMapDistinctNames(init, index);
      var prev := StatusMap(init, index);
      assert StatusMap(names, index) == Insert(prev, name, StatusOf(index, name));
      assert name !in Keys(prev);
      assert names == init + [name];
    }
  }

  /** check.py lines 80-107 after the request: a 200 answer yields the snapshot, any
      other status code the error carrying it. In the snapshot every
      configured name appears once, in the order of its first occurrence,
      is offline exactly when no record's login matches it ignoring case,
      and otherwise carries the details of the last matching record, under
      the name's configured casing. */
  function CheckMultipleStreamers(names: seq<string>, response: StreamsResponse): (r: Result<Snapshot, FetchError>)
    ensures r.Success? <==> response.statusCode == 200
    ensures r.Failure? ==> r.error == ApiRequestFailed(response.statusCode)
    ensures r.Success? ==> Distinct(Keys(r.value))
    ensures r.Success? ==> forall name :: name in Keys(r.value) <==> name in names
    ensures r.Success? ==> forall i :: 0 <= i < |r.value| ==>
      (r.value[i].1.Offline? <==> forall j :: 0 <= j < |response.streams| ==> !LoginMatches(response.streams, j, Lower(r.value[i].0)))
    ensures r.Success? ==> forall i, j :: 0 <= i < |r.value| && IsLastMatch(response.streams, j, Lower(r.value[i].0)) ==>
      r.value[i].1 == LiveOf(response.streams[j])
    ensures r.Success? ==> FirstOccurrenceOrder(Keys(r.value), names)
  {
    if response.statusCode == 200 then
      var d := StatusMap(names, LiveIndex(response.streams));
      StatusMapOrder(names, LiveIndex(response.streams));
      assert forall i :: 0 <= i < |d| ==>
        && (d[i].1.Offline? <==> forall j :: 0 <= j < |response.streams| ==> !LoginMatches(response.streams, j, Lower(d[i].0)))
        && (forall j :: IsLastMatch(response.streams, j, Lower(d[i].0)) ==> d[i].1 == LiveOf(response.streams[j])) by {
        forall i | 0 <= i < |d|
          ensures (d[i].1.Offline? <==> forall j :: 0 <= j < |response.streams| ==> !LoginMatches(response.streams, j, Lower(d[i].0)))
          ensures forall j :: IsLastMatch(response.streams, j, Lower(d[i].0)) ==> d[i].1 == LiveOf(response.streams[j])
        {
          StatusOfflineIff(response.streams, d[i].0);
          StatusLiveDetails(response.streams, d[i].0);
        }
      }
      Success(d)
    else
      Failure(ApiRequestFailed(response.statusCode))
  }
}
