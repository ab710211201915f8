/** The monitor's configuration: the streamer list cleaned from the
    comma-separated environment value, and `validate_config`. Reading the
    environment and the `.env` file happens outside the model; the values
    arrive here already looked up, `None` standing for an unset variable. */
module Config {
  import opened Results
  import opened Text

  const Comma: char := ','

  /** The poll interval, in seconds, used when CHECK_INTERVAL is unset. */
  const DefaultCheckInterval: int := 60

  /** A name as the cleanup leaves it: non-empty, without surrounding
      whitespace. */
  predicate IsTrimmedName(name: string) {
    && name != []
    && !IsSpace(name[0])
    && !IsSpace(name[|name| - 1])
  }

  /** `[p.strip() for p in parts if p.strip()]`. */
  function CleanEntries(parts: seq<string>): (names: seq<string>)
    ensures |names| <= |parts|
    ensures forall i :: 0 <= i < |names| ==> IsTrimmedName(names[i])
    decreases |parts|
  {
    if |parts| == 0 then []
    else
      var name := Strip(parts[0]);
      var rest := CleanEntries(parts[1..]);
      if name == [] then rest
      else
        assert IsTrimmedName(name);
        var names := [name] + rest;
        assert forall i :: 0 < i < |names| ==> names[i] == rest[i - 1];
        names
  }

  /** Cleanup keeps the order of the pieces: it distributes over
      concatenation. */
  lemma {:induction false} CleanEntriesAppend(a: seq<string>, b: seq<string>)
    ensures CleanEntries(a + b) == CleanEntries(a) + CleanEntries(b)
    decreases |a|
  {
    if |a| > 0 {
      assert (a + b)[0] == a[0];
      assert (a + b)[1..] == a[1..] + b;
      CleanEntriesAppend(a[1..], b);
    } else {
      assert a + b == b;
    }
  }

  /** Some piece strips down to `x`. */
  ghost predicate StripsTo(parts: seq<string>, x: string) {
    exists j :: 0 <= j < |parts| && Strip(parts[j]) == x
  }

  lemma StripsToCons(parts: seq<string>, x: string)
    requires |parts| > 0
    ensures StripsTo(parts, x) <==> Strip(parts[0]) == x || StripsTo(parts[1..], x)
  {
    if StripsTo(parts, x) && Strip(parts[0]) != x {
      var j :| 0 <= j < |parts| && Strip(parts[j]) == x;
      assert 1 <= j;
      assert parts[1..][j - 1] == parts[j];
      assert StripsTo(parts[1..], x);
    }
    if StripsTo(parts[1..], x) {
      var j :| 0 <= j < |parts| - 1 && Strip(parts[1..][j]) == x;
      assert parts[j + 1] == parts[1..][j];
      assert StripsTo(parts, x);
    }
  }

  /** A name survives the cleanup exactly when it is the non-empty strip of
      some piece. */
  lemma {:induction false} CleanEntriesMembers(parts: seq<string>, x: string)
    ensures x in CleanEntries(parts) <==> x != [] && StripsTo(parts, x)
    decreases |parts|
  {
    if |parts| > 0 {
      CleanEntriesMembers(parts[1..], x);
      StripsToCons(parts, x);
    }
  }

  /** A character no piece contains is in no cleaned name. */
  lemma CleanEntriesKeepOut(parts: seq<string>, c: char)
    requires forall j :: 0 <= j < |parts| ==> c !in parts[j]
    ensures forall i :: 0 <= i < |CleanEntries(parts)| ==> c !in CleanEntries(parts)[i]
  {
    var names := CleanEntries(parts);
    forall i | 0 <= i < |names|
      ensures c !in names[i]
    {
      CleanEntriesMembers(parts, names[i]);
      var j :| 0 <= j < |parts| && Strip(parts[j]) == names[i];
      StripKeepsOut(parts[j], c);
    }
  }

  /** Every piece is blank. */
  predicate AllBlank(parts: seq<string>) {
    forall i :: 0 <= i < |parts| ==> AllSpace(parts[i])
  }

  lemma AllBlankCons(parts: seq<string>)
    requires |parts| > 0
    ensures AllBlank(parts) <==> AllSpace(parts[0]) && AllBlank(parts[1..])
  {
    assert forall i :: 1 <= i < |parts| ==> parts[1..][i - 1] == parts[i];
  }

  /** The cleaned list is empty exactly when every piece is blank. */
  lemma {:induction false} CleanEntriesEmpty(parts: seq<string>)
    ensures CleanEntries(parts) == [] <==> AllBlank(parts)
    decreases |parts|
  {
    if |parts| > 0 {
      CleanEntriesEmpty(parts[1..]);
      AllBlankCons(parts);
    }
  }

  /** The raw value holds nothing but commas and whitespace. */
  predicate OnlySeparators(raw: string) {
    forall i :: 0 <= i < |raw| ==> raw[i] == Comma || IsSpace(raw[i])
  }

  lemma OnlySeparatorsCons(raw: string)
    requires |raw| > 0
    ensures OnlySeparators(raw) <==> (raw[0] == Comma || IsSpace(raw[0])) && OnlySeparators(raw[1..])
  {
    assert forall i :: 1 <= i < |raw| ==> raw[1..][i - 1] == raw[i];
  }

  /** Every piece of the split is blank exactly when the raw value holds
      nothing but commas and whitespace. */
  lemma {:induction false} SplitAllBlank(raw: string)
    ensures AllBlank(Split(raw, Comma)) <==> OnlySeparators(raw)
    decreases |raw|
  {
    if |raw| > 0 {
      var rest := Split(raw[1..], Comma);
      SplitAllBlank(raw[1..]);
      OnlySeparatorsCons(raw);
      AllBlankCons(rest);
      if raw[0] == Comma {
        var parts := [""] + rest;
        assert Split(raw, Comma) == parts;
        AllBlankCons(parts);
        assert parts[1..] == rest;
      } else {
        var first := [raw[0]] + rest[0];
        var parts := [first] + rest[1..];
        assert Split(raw, Comma) == parts;
        AllBlankCons(parts);
        assert parts[1..] == rest[1..];
        AllSpaceCons(raw[0], rest[0]);
      }
    }
  }

  /** check.py lines 13-16: split the raw TWITCH_STREAMER_NAMES value on commas,
      strip each piece and drop the blank ones. No name is empty, padded with
      whitespace, or contains a comma. */
  function CleanNames(raw: string): (names: seq<string>)
    ensures forall i :: 0 <= i < |names| ==> IsTrimmedName(names[i]) && Comma !in names[i]
  {
    CleanEntriesKeepOut(Split(raw, Comma), Comma);
    CleanEntries(Split(raw, Comma))
  }

  /** The cleaned list is empty exactly when the raw value is made of commas
      and whitespace only (including the empty string). */
  lemma CleanNamesEmpty(raw: string)
    ensures CleanNames(raw) == [] <==> OnlySeparators(raw)
  {
    CleanEntriesEmpty(Split(raw, Comma));
    SplitAllBlank(raw);
  }

  /** The settings the script reads at start-up. Credentials stay optional,
      as `os.getenv` returns `None` for an unset variable. */
  datatype Settings = Settings(
    clientId: Option<string>,
    clientSecret: Option<string>,
    streamerNames: seq<string>,
    checkInterval: int)

  /** check.py lines 11-19: build the settings from the looked-up environment values.
      An unset streamer list behaves as the empty string, and an unset
      interval as 60 seconds. Parsing CHECK_INTERVAL with `int()` is done by
      the caller. */
  function LoadSettings(clientId: Option<string>, clientSecret: Option<string>,
                        rawNames: Option<string>, checkInterval: Option<int>): (s: Settings)
    ensures s.clientId == clientId && s.clientSecret == clientSecret
    ensures forall i :: 0 <= i < |s.streamerNames| ==> IsTrimmedName(s.streamerNames[i])
    ensures rawNames.None? ==> s.streamerNames == []
    ensures rawNames.Some? ==> s.streamerNames == CleanNames(rawNames.value)
    ensures checkInterval.None? ==> s.checkInterval == DefaultCheckInterval
    ensures checkInterval.Some? ==> s.checkInterval == checkInterval.value
  {
    Settings(clientId, clientSecret, CleanNames(rawNames.GetOr("")), checkInterval.GetOr(DefaultCheckInterval))
  }

  /** The `ValueError`s `validate_config` raises. */
  datatype ConfigError = MissingClientId | MissingClientSecret | MissingStreamerNames

  /** Python's `not v` for an optional string: unset or empty. */
  predicate Blank(v: Option<string>) {
    v.None? || v.value == ""
  }

  /** check.py lines 45-52: the client id, the client secret and the streamer list
      are checked in that order, and the first one missing is reported. */
  function ValidateConfig(s: Settings): (r: Outcome<ConfigError>)
    ensures r.Pass? <==> !Blank(s.clientId) && !Blank(s.clientSecret) && s.streamerNames != []
    ensures r == Fail(MissingClientId) <==> Blank(s.clientId)
    ensures r == Fail(MissingClientSecret) <==> !Blank(s.clientId) && Blank(s.clientSecret)
    ensures r == Fail(MissingStreamerNames) <==> !Blank(s.clientId) && !Blank(s.clientSecret) && s.streamerNames == []
  {
    if Blank(s.clientId) then Fail(MissingClientId)
    else if Blank(s.clientSecret) then Fail(MissingClientSecret)
    else if s.streamerNames == [] then Fail(MissingStreamerNames)
    else Pass
  }

  /** Validation of freshly loaded settings in terms of the raw environment:
      it passes exactly when both credentials are non-empty and the streamer
      value holds at least one character that is neither a comma nor
      whitespace. */
  lemma ValidateLoadedSettings(clientId: Option<string>, clientSecret: Option<string>,
                               rawNames: Option<string>, checkInterval: Option<int>)
    ensures ValidateConfig(LoadSettings(clientId, clientSecret, rawNames, checkInterval)).Pass?
        <==> !Blank(clientId) && !Blank(clientSecret) && rawNames.Some? && !OnlySeparators(rawNames.value)
  {
    CleanNamesEmpty(rawNames.GetOr(""));
  }
}
