/** Concrete cases of the monitor's behaviour, each pinned down as a lemma
    about the model. */
module Examples {
  import opened Results
  import opened Text
  import opened OrderedDict
  import opened Config
  import opened Streams
  import opened Dashboard

  lemma SplitExample()
    ensures Split(" foo ,,bar", Comma) == [" foo ", "", "bar"]
  {
    SplitJoin([" foo ", "", "bar"], Comma);
    assert Join([" foo ", "", "bar"], Comma) == " foo ,,bar";
  }

  lemma StripLeftExample()
    ensures StripLeft(" foo ") == "foo "
  {
    assert " foo "[1..] == "foo ";
    assert "foo "[0] == 'f' && !IsSpace('f');
  }

  lemma StripRightExample()
    ensures StripRight("foo ") == "foo"
  {
    assert "foo "[..3] == "foo";
    assert "foo"[2] == 'o' && !IsSpace('o');
  }

  lemma StripPadded()
    ensures Strip(" foo ") == "foo"
  {
    StripLeftExample();
    StripRightExample();
  }

  lemma StripBare()
    ensures Strip("bar") == "bar"
  {
    assert "bar"[0] == 'b' && !IsSpace('b');
    assert "bar"[2] == 'r' && !IsSpace('r');
  }

  /** A login matches a configured name regardless of case, and the
      snapshot keeps the configured casing. */
  lemma CaseInsensitiveMatch()
    ensures CheckMultipleStreamers(["foo"], StreamsResponse(200, [StreamRecord("Foo", "Speedrun", "Celeste", 42, "2024-01-01T00:00:00Z")]))
         == Success([("foo", Live("Speedrun", "Celeste", 42, "2024-01-01T00:00:00Z"))])
  {
    var rec := StreamRecord("Foo", "Speedrun", "Celeste", 42, "2024-01-01T00:00:00Z");
    var index := LiveIndex([rec]);
    assert Lower("Foo") == "foo";
    assert Lower("foo") == "foo";
    assert LoginMatches([rec], 0, "foo");
    assert IsLastMatch([rec], 0, "foo");
    assert index["foo"] == LiveOf(rec);
    assert "foo" in index;
    var d := StatusMap(["foo"], index);
    StatusMapDistinctNames(["foo"], index);
    assert |d| == |Keys(d)| == 1;
    assert d[0].0 == Keys(d)[0] == "foo";
    assert d[0].1 == StatusOf(index, "foo") == LiveOf(rec);
    assert d == [("foo", LiveOf(rec))];
  }

  /** With nobody live, every configured name is offline, in configured
      order. */
  lemma NobodyLive(a: string, b: string, c: string)
    requires a != b && a != c && b != c
    ensures CheckMultipleStreamers([a, b, c], StreamsResponse(200, []))
         == Success([(a, Offline), (b, Offline), (c, Offline)])
  {
    var names := [a, b, c];
    assert LiveIndex([]) == map[];
    var d := StatusMap(names, map[]);
    StatusMapDistinctNames(names, map[]);
    assert |d| == 3;
    assert d[0].0 == a && d[1].0 == b && d[2].0 == c by {
      assert Keys(d) == names;
    }
    assert d[0].1 == Offline && d[1].1 == Offline && d[2].1 == Offline;
    assert d == [d[0], d[1], d[2]];
  }

  /** A name configured twice yields one entry, at its first position. */
  lemma DuplicateNameCollapses()
    ensures CheckMultipleStreamers(["a", "b", "a"], StreamsResponse(200, [])).Success?
    ensures Keys(CheckMultipleStreamers(["a", "b", "a"], StreamsResponse(200, [])).value) == ["a", "b"]
  {
    assert LiveIndex([]) == map[];
    var names := ["a", "b", "a"];
    assert names[..2] == ["a", "b"];
    StatusMapDistinctNames(["a", "b"], map[]);
  }

  /** Of two records whose logins both match a configured name ignoring
      case, the later one is reported. */
  lemma LaterRecordWins(name: string, first: StreamRecord, second: StreamRecord)
    requires Lower(first.userLogin) == Lower(name) && Lower(second.userLogin) == Lower(name)
    ensures var r := CheckMultipleStreamers([name], StreamsResponse(200, [first, second]));
            r.Success? && |r.value| == 1 && r.value[0] == (name, LiveOf(second))
  {
    var streams := [first, second];
    var r := CheckMultipleStreamers([name], StreamsResponse(200, streams));
    assert IsLastMatch(streams, 1, Lower(name));
    assert Keys(r.value) == [name] by {
      StatusMapDistinctNames([name], LiveIndex(streams));
    }
    assert r.value[0].0 == Keys(r.value)[0];
  }

  /** Names that differ only in case are not merged: each keeps its own
      entry. */
  lemma CaseVariantsKept()
    ensures Keys(CheckMultipleStreamers(["Foo", "foo"], StreamsResponse(200, [])).value) == ["Foo", "foo"]
  {
    assert LiveIndex([]) == map[];
    assert ["Foo", "foo"][0] != ["Foo", "foo"][1];
    StatusMapDistinctNames(["Foo", "foo"], map[]);
  }

  /** A 56-character title loses its last character to the ellipsis. */
  lemma LongTitleCut(title: string)
    requires |title| == 56
    ensures Truncate(title, TitleLimit) == title[..55] + "..."
    ensures |Truncate(title, TitleLimit)| == 58
  {
  }

  /** A 55-character title is shown whole. */
  lemma FullTitleKept(title: string)
    requires |title| == 55
    ensures Truncate(title, TitleLimit) == title
  {
  }

  /** A failed request carries its status code. */
  lemma RequestFails()
    ensures CheckMultipleStreamers(["a"], StreamsResponse(401, [])) == Failure(ApiRequestFailed(401))
  {
  }

  /** The figures from the viewer-count formatter. */
  lemma ViewerCountExamples()
    ensures FormatViewerCount(999) == "999"
    ensures FormatViewerCount(1000) == "1.0K"
    ensures FormatViewerCount(12345) == "12.3K"
  {
  }

  /** Seven offline names fill two full rows and one row of one. */
  lemma SevenOfflineNames()
    ensures |Chunks(["a", "b", "c", "d", "e", "f", "g"], Columns)| == 3
  {
  }
}
