/** Reading storage parameters back from their two printed forms. */
module Reloptions {
  import opened Options
  import opened Scanning

  predicate IsKeyChar(c: char) { 'a' <= c <= 'z' || c == '_' }

  /** Python's `\s` on text. */
  predicate IsSpace(c: char) {
    var n := c as int;
    || 0x09 <= n <= 0x0D || 0x1C <= n <= 0x20 || n == 0x85 || n == 0xA0 || n == 0x1680
    || 0x2000 <= n <= 0x200A || n == 0x2028 || n == 0x2029 || n == 0x202F || n == 0x205F
    || n == 0x3000
  }

  predicate IsValueChar(c: char) { !IsSpace(c) && c != ',' && c != '}' }

  predicate IsStripped(c: char) { c == '{' || c == '}' || c == ' ' }

  /** Braces and blanks off the end. */
  function StripEnd(s: string): string {
    if s != "" && IsStripped(s[|s| - 1]) then StripEnd(s[..|s| - 1]) else s
  }

  /** And off both ends. */
  function Strip(s: string): string { StripEnd(s[Run(IsStripped, s)..]) }

  // ---- The scan

  type Setting = (string, string)

  /** A match of `[a-z_]+=[^\s,}]+` at the start of `s`, with its length. */
  function MatchAt(s: string): (m: Option<(Setting, nat)>)
    ensures m.Some? ==> 0 < m.value.1 <= |s|
  {
    var k := Run(IsKeyChar, s);
    if k == 0 || k == |s| || s[k] != '=' then None
    else
      var v := Run(IsValueChar, s[k + 1..]);
      if v == 0 then None else Some(((s[..k], s[k + 1..k + 1 + v]), k + 1 + v))
  }

  /** `finditer`: leftmost matches that do not overlap. */
  function Scan(s: string): seq<Setting>
    decreases |s|
  {
    if s == "" then []
    else
      match MatchAt(s)
      case Some((setting, length)) => [setting] + Scan(s[length..])
      case None => Scan(s[1..])
  }

  /** A dict comprehension: the last value of a key stands. */
  function ToDict(settings: seq<Setting>): map<string, string> {
    if settings == [] then map[]
    else
      var n := |settings| - 1;
      ToDict(settings[..n])[settings[n].0 := settings[n].1]
  }

  function ParseReloptions(text: string): map<string, string> { ToDict(Scan(Strip(text))) }

  // ---- The two printed forms

  function PrintOne(s: Setting): string { s.0 + "=" + s.1 }

  function Joined(settings: seq<Setting>, separator: char): string {
    if settings == [] then ""
    else if |settings| == 1 then PrintOne(settings[0])
    else PrintOne(settings[0]) + [separator] + Joined(settings[1..], separator)
  }

  /** `array_to_string(reloptions, ' ')` */
  function CatalogForm(settings: seq<Setting>): string { Joined(settings, ' ') }

  /** As psql prints the array. */
  function PsqlForm(settings: seq<Setting>): string { "{" + Joined(settings, ',') + "}" }

  predicate IsSetting(s: Setting) {
    s.0 != "" && All(IsKeyChar, s.0) && s.1 != "" && All(IsValueChar, s.1)
  }

  function LastChar(s: string): char {
    if s == "" then ' ' else s[|s| - 1]
  }

  /** The text does not end in an opening brace, which would be stripped with the frame. */
  predicate ClosesCleanly(settings: seq<Setting>) {
    settings != [] ==> LastChar(settings[|settings| - 1].1) != '{'
  }

  predicate AreSettings(settings: seq<Setting>) {
    forall s <- settings :: IsSetting(s)
  }

  /** The characters Python counts as white space, by code point. */
  predicate IsWhite(c: char) {
    c as int in {9, 10, 11, 12, 13, 28, 29, 30, 31, 32, 133, 160, 5760,
                 8192, 8193, 8194, 8195, 8196, 8197, 8198, 8199, 8200, 8201, 8202,
                 8232, 8233, 8239, 8287, 12288}
  }

  /** A key of lower-case letters and underscores, a value without white space, comma and
      closing brace, and neither of them empty. */
  predicate IsPlain(s: Setting) {
    && s.0 != "" && (forall c <- s.0 :: 'a' <= c <= 'z' || c == '_')
    && s.1 != "" && forall c <- s.1 :: !IsWhite(c) && c != ',' && c != '}'
  }

  predicate ArePlain(settings: seq<Setting>) {
    forall s <- settings :: IsPlain(s)
  }

  /** The scanner takes exactly these settings. */
  lemma SettingIffPlain(s: Setting)
    ensures IsSetting(s) <==> IsPlain(s)
  {
    forall c ensures IsValueChar(c) <==> !IsWhite(c) && c != ',' && c != '}' {
      SpaceIffWhite(c);
    }
  }

  lemma SpaceIffWhite(c: char)
    ensures IsSpace(c) <==> IsWhite(c)
  {}

  lemma PlainAreSettings(settings: seq<Setting>)
    ensures AreSettings(settings) <==> ArePlain(settings)
  {
    forall s ensures IsSetting(s) <==> IsPlain(s) {
      SettingIffPlain(s);
    }
  }

  /** A match at the start of `s` is a setting printed there whose value cannot go on. */
  lemma MatchAtIff(s: string, key: string, value: string)
    ensures MatchAt(s) == Some(((key, value), |key| + 1 + |value|)) <==>
            && IsPlain((key, value)) && PrintOne((key, value)) <= s
            && var rest := s[|key| + 1 + |value|..];
               rest == "" || IsWhite(rest[0]) || rest[0] == ',' || rest[0] == '}'
  {
    SettingIffPlain((key, value));
    if MatchAt(s) == Some(((key, value), |key| + 1 + |value|)) {
      MatchIsPrinted(s);
      if s[|key| + 1 + |value|..] != "" {
        SpaceIffWhite(s[|key| + 1 + |value|]);
      }
    } else if IsPlain((key, value)) && PrintOne((key, value)) <= s {
      var rest := s[|key| + 1 + |value|..];
      assert s == PrintOne((key, value)) + rest;
      if rest == "" || IsWhite(rest[0]) || rest[0] == ',' || rest[0] == '}' {
        if rest != "" {
          SpaceIffWhite(rest[0]);
        }
        MatchesPrinted((key, value), rest);
        assert false;
      }
    }
  }

  lemma MatchIsPrinted(s: string)
    requires MatchAt(s).Some?
    ensures var (setting, n) := MatchAt(s).value;
            && IsSetting(setting) && n == |PrintOne(setting)| && PrintOne(setting) <= s
            && (n < |s| ==> !IsValueChar(s[n]))
  {
    var k := Run(IsKeyChar, s);
    var v := Run(IsValueChar, s[k + 1..]);
    RunIsAll(IsKeyChar, s);
    RunIsAll(IsValueChar, s[k + 1..]);
    assert s[k + 1..][..v] == s[k + 1..k + 1 + v];
    assert PrintOne((s[..k], s[k + 1..k + 1 + v])) == s[..k + 1 + v];
  }

  // ---- The scan of a printed list

  lemma MatchesPrinted(s: Setting, rest: string)
    requires IsSetting(s) && (rest == "" || !IsValueChar(rest[0]))
    ensures MatchAt(PrintOne(s) + rest) == Some((s, |PrintOne(s)|))
  {
    assert PrintOne(s) + rest == s.0 + (['='] + (s.1 + rest));
    MatchesParts(s.0, s.1, rest);
  }

  lemma MatchesParts(key: string, value: string, rest: string)
    requires IsSetting((key, value)) && (rest == "" || !IsValueChar(rest[0]))
    ensures MatchAt(key + (['='] + (value + rest))) == Some(((key, value), |key| + 1 + |value|))
  {
    var tail := ['='] + (value + rest);
    var text := key + tail;
    RunStops(IsKeyChar, key, tail);
    RunStops(IsValueChar, value, rest);
    assert text[|key|] == '=' && text[..|key|] == key;
    assert text[|key| + 1..] == value + rest;
    assert text[|key| + 1..|key| + 1 + |value|] == value;
  }

  predicate IsSeparator(c: char) { c == ' ' || c == ',' }

  lemma ScanAfterOne(one: Setting, separator: char, after: string)
    requires IsSetting(one) && IsSeparator(separator)
    ensures Scan(PrintOne(one) + ([separator] + after)) == [one] + Scan(after)
  {
    var rest := [separator] + after;
    MatchesPrinted(one, rest);
    assert (PrintOne(one) + rest)[|PrintOne(one)|..] == rest;
    assert MatchAt(rest) == None && rest[1..] == after;
  }

  lemma ScanLastOne(one: Setting)
    requires IsSetting(one)
    ensures Scan(PrintOne(one)) == [one]
  {
    MatchesPrinted(one, "");
    assert PrintOne(one) + "" == PrintOne(one);
    assert PrintOne(one)[|PrintOne(one)|..] == "";
  }

  /** A key whose value has been stripped away yields no match. */
  lemma {:induction false} ScanNoValue(key: string)
    requires All(IsKeyChar, key)
    ensures Scan(key + "=") == []
  {
    var text := key + "=";
    RunStops(IsKeyChar, key, "=");
    assert text[|key| + 1..] == "";
    assert MatchAt(text) == None;
    if key == "" {
      assert text[1..] == "";
    } else {
      assert text[1..] == key[1..] + "=";
      ScanNoValue(key[1..]);
    }
  }

  /** Settings each followed by the separator. */
  function Lead(settings: seq<Setting>, separator: char): string {
    if settings == [] then ""
    else PrintOne(settings[0]) + ([separator] + Lead(settings[1..], separator))
  }

  lemma LeadStep(settings: seq<Setting>, separator: char, tail: string)
    requires settings != []
    ensures Lead(settings, separator) + tail ==
            PrintOne(settings[0]) + ([separator] + (Lead(settings[1..], separator) + tail))
  {}

  lemma {:induction false} JoinedIsLead(settings: seq<Setting>, separator: char)
    requires settings != []
    ensures var n := |settings| - 1;
            Joined(settings, separator) == Lead(settings[..n], separator) + PrintOne(settings[n])
  {
    var n := |settings| - 1;
    if n > 0 {
      var rest := settings[1..];
      JoinedIsLead(rest, separator);
      assert settings[..n][1..] == rest[..n - 1];
      LeadStep(settings[..n], separator, PrintOne(settings[n]));
      assert PrintOne(settings[0]) + ([separator] + Joined(rest, separator)) == Joined(settings, separator);
    } else {
      assert "" + PrintOne(settings[0]) == PrintOne(settings[0]);
    }
  }

  lemma {:induction false} ScanOfLead(settings: seq<Setting>, separator: char, tail: string)
    requires AreSettings(settings) && IsSeparator(separator)
    ensures Scan(Lead(settings, separator) + tail) == settings + Scan(tail)
  {
    if settings == [] {
      assert "" + tail == tail;
    } else {
      ScanOfLead(settings[1..], separator, tail);
      ScanOneMore(settings, separator, tail);
    }
  }

  lemma ScanOneMore(settings: seq<Setting>, separator: char, tail: string)
    requires AreSettings(settings) && IsSeparator(separator) && settings != []
    requires Scan(Lead(settings[1..], separator) + tail) == settings[1..] + Scan(tail)
    ensures Scan(Lead(settings, separator) + tail) == settings + Scan(tail)
  {
    var one, rest := settings[0], settings[1..];
    assert Scan(Lead(settings, separator) + tail) == [one] + rest + Scan(tail) by {
      LeadStep(settings, separator, tail);
      ScanAs(Lead(settings, separator) + tail, one, separator, Lead(rest, separator) + tail,
             rest, Scan(tail));
    }
    assert settings == [one] + rest;
  }

  lemma ScanAs(text: string, one: Setting, separator: char, after: string, rest: seq<Setting>,
               last: seq<Setting>)
    requires IsSetting(one) && IsSeparator(separator)
    requires text == PrintOne(one) + ([separator] + after) && Scan(after) == rest + last
    ensures Scan(text) == [one] + rest + last
  {
    ScanAfterOne(one, separator, after);
    Regroup([one], rest, last);
  }

  lemma Regroup<T>(a: seq<T>, b: seq<T>, c: seq<T>)
    ensures a + (b + c) == a + b + c
  {}

  // ---- Stripping a printed list

  lemma {:induction false} StripEndOfSuffix(s: string, suffix: string)
    requires s != "" && !IsStripped(LastChar(s))
    ensures StripEnd(s + suffix) == s + StripEnd(suffix)
  {
    if suffix == "" {
      assert s + suffix == s;
    } else if IsStripped(LastChar(suffix)) {
      var n := |suffix| - 1;
      assert (s + suffix)[..|s| + n] == s + suffix[..n];
      StripEndOfSuffix(s, suffix[..n]);
    }
  }

  lemma StripKeepsFront(s: string)
    requires s != "" && !IsStripped(s[0])
    ensures Strip(s) == StripEnd(s) && Strip("{" + s + "}") == StripEnd(s)
  {
    var framed := "{" + s + "}";
    assert framed[1..] == s + "}";
    assert Run(IsStripped, framed) == 1 + Run(IsStripped, s + "}") == 1;
    assert (s + "}")[..|s|] == s;
  }

  lemma PrintedFront(settings: seq<Setting>, separator: char)
    requires AreSettings(settings) && settings != []
    ensures Joined(settings, separator) != "" && !IsStripped(Joined(settings, separator)[0])
  {
    assert IsSetting(settings[0]);
    assert settings[0].0[0] in settings[0].0;
  }

  /** The settings with another value at the end, without the last one if that is empty. */
  function WithLast(settings: seq<Setting>, value: string): seq<Setting>
    requires settings != []
  {
    var n := |settings| - 1;
    settings[..n] + if value == "" then [] else [(settings[n].0, value)]
  }

  /** What either form reads back as: the settings, the last value without the braces
      at its end, and without the last setting if nothing else is left of its value. */
  lemma PrintedReadsAs(settings: seq<Setting>, separator: char)
    requires ArePlain(settings) && settings != [] && IsSeparator(separator)
    ensures var t, n := Joined(settings, separator), |settings| - 1;
            var core := StripEnd(settings[n].1);
            Scan(Strip(t)) == Scan(Strip("{" + t + "}")) == WithLast(settings, core)
  {
    PlainAreSettings(settings);
    var n := |settings| - 1;
    var last := settings[n];
    var core := StripEnd(last.1);
    var text, lead := Joined(settings, separator), Lead(settings[..n], separator);
    assert IsSetting(last);
    assert Strip(text) == Strip("{" + text + "}") == StripEnd(text) by {
      PrintedFront(settings, separator);
      StripKeepsFront(text);
    }
    assert StripEnd(text) == lead + (last.0 + "=" + core) by {
      StripLast(settings, separator);
    }
    assert Scan(lead + (last.0 + "=" + core)) == settings[..n] + Scan(last.0 + "=" + core) by {
      ScanOfLead(settings[..n], separator, last.0 + "=" + core);
    }
    assert Scan(last.0 + "=" + core) == (if core == "" then [] else [(last.0, core)]) by {
      ScanOfLast(last);
    }
  }

  lemma StripLast(settings: seq<Setting>, separator: char)
    requires settings != []
    ensures var n := |settings| - 1;
            StripEnd(Joined(settings, separator)) ==
            Lead(settings[..n], separator) + (settings[n].0 + "=" + StripEnd(settings[n].1))
  {
    var last := settings[|settings| - 1];
    JoinedIsLead(settings, separator);
    var start := Lead(settings[..|settings| - 1], separator) + (last.0 + "=");
    assert Joined(settings, separator) == start + last.1;
    StripEndOfSuffix(start, last.1);
  }

  lemma ScanOfLast(last: Setting)
    requires IsSetting(last)
    ensures var core := StripEnd(last.1);
            Scan(last.0 + "=" + core) == if core == "" then [] else [(last.0, core)]
  {
    var core := StripEnd(last.1);
    if core == "" {
      assert last.0 + "=" + core == last.0 + "=";
      ScanNoValue(last.0);
    } else {
      StripEndIsPrefix(last.1);
      ScanLastOne((last.0, core));
    }
  }

  lemma {:induction false} StripEndIsPrefix(s: string)
    ensures StripEnd(s) <= s
    ensures StripEnd(s) == s <==> s == "" || !IsStripped(LastChar(s))
  {
    if s != "" && IsStripped(LastChar(s)) {
      StripEndIsPrefix(s[..|s| - 1]);
    }
  }

  // ---- Round trip

  ghost predicate ListsMap(settings: seq<Setting>, m: map<string, string>) {
    && (forall i, j | 0 <= i < j < |settings| :: settings[i].0 != settings[j].0)
    && (forall s <- settings :: s.0 in m && m[s.0] == s.1)
    && (forall k <- m :: (k, m[k]) in settings)
  }

  lemma {:induction false} ToDictHolds(settings: seq<Setting>)
    requires forall i, j | 0 <= i < j < |settings| :: settings[i].0 != settings[j].0
    ensures forall k <- ToDict(settings) :: (k, ToDict(settings)[k]) in settings
    ensures forall s <- settings :: s.0 in ToDict(settings) && ToDict(settings)[s.0] == s.1
  {
    if settings != [] {
      var n := |settings| - 1;
      assert settings == settings[..n] + [settings[n]];
      ToDictHolds(settings[..n]);
    }
  }

  predicate SameAt(a: map<string, string>, b: map<string, string>, k: string) {
    (k in a <==> k in b) && (k in a && k in b ==> a[k] == b[k])
  }

  lemma ToDictIsMap(settings: seq<Setting>, m: map<string, string>)
    requires ListsMap(settings, m)
    ensures ToDict(settings) == m
  {
    ToDictHolds(settings);
    var d := ToDict(settings);
    forall k | k in m ensures k in d && d[k] == m[k] {
      assert (k, m[k]) in settings;
    }
    forall k | k in d ensures k in m {
      assert (k, d[k]) in settings;
    }
  }

  /** A shortened last value is missed under its own key. */
  lemma ShortenedLosesLast(settings: seq<Setting>, m: map<string, string>, core: string)
    requires ListsMap(settings, m) && settings != [] && core != settings[|settings| - 1].1
    ensures var d, k := ToDict(WithLast(settings, core)), settings[|settings| - 1].0;
            k in m && !(k in d && d[k] == m[k])
  {
    var last := settings[|settings| - 1];
    assert last in settings;
    LastKeyOnce(settings);
    ToDictHolds(WithLast(settings, core));
  }

  lemma LastKeyOnce(settings: seq<Setting>)
    requires settings != []
    requires forall i, j | 0 <= i < j < |settings| :: settings[i].0 != settings[j].0
    ensures var n := |settings| - 1; forall s <- settings[..n] :: s.0 != settings[n].0
  {}

  /** All other keys are read as they were. */
  lemma ShortenedKeepsOthers(settings: seq<Setting>, m: map<string, string>, core: string, k: string)
    requires ListsMap(settings, m) && settings != [] && k != settings[|settings| - 1].0
    ensures SameAt(ToDict(WithLast(settings, core)), m, k)
  {
    var read := WithLast(settings, core);
    assert settings == settings[..|settings| - 1] + [settings[|settings| - 1]];
    ToDictHolds(read);
    if k in m {
      assert (k, m[k]) in settings;
      assert (k, m[k]) in read;
    }
    if k in ToDict(read) {
      assert (k, ToDict(read)[k]) in read;
      assert (k, ToDict(read)[k]) in settings;
    }
  }

  lemma JoinedReadsBackIff(settings: seq<Setting>, m: map<string, string>, separator: char)
    requires ListsMap(settings, m) && ArePlain(settings) && settings != [] && IsSeparator(separator)
    ensures var t := Joined(settings, separator);
            && (ParseReloptions(t) == m <==> ClosesCleanly(settings))
            && (ParseReloptions("{" + t + "}") == m <==> ClosesCleanly(settings))
  {
    var t, n := Joined(settings, separator), |settings| - 1;
    var value := settings[n].1;
    var core := StripEnd(value);
    var read := WithLast(settings, core);
    assert Scan(Strip(t)) == read && Scan(Strip("{" + t + "}")) == read by {
      PrintedReadsAs(settings, separator);
    }
    assert core == value <==> ClosesCleanly(settings) by {
      SettingIffPlain(settings[n]);
      LastStripped(value);
    }
    WithLastIff(settings, m, core);
  }

  lemma WithLastIff(settings: seq<Setting>, m: map<string, string>, core: string)
    requires ListsMap(settings, m) && ArePlain(settings) && settings != []
    ensures ToDict(WithLast(settings, core)) == m <==> core == settings[|settings| - 1].1
  {
    var last := settings[|settings| - 1];
    if core == last.1 {
      assert IsPlain(last);
      assert WithLast(settings, core) == settings;
      ToDictIsMap(settings, m);
    } else {
      ShortenedLosesLast(settings, m, core);
    }
  }

  /** Parsing inverts printing: whatever the order in which a finite map is printed,
      and in either form, the map comes back, unless the text of the list ends in an
      opening brace. */
  lemma ParseInvertsPrintIff(settings: seq<Setting>, m: map<string, string>)
    requires ListsMap(settings, m) && ArePlain(settings)
    ensures ParseReloptions(CatalogForm(settings)) == m <==> ClosesCleanly(settings)
    ensures ParseReloptions(PsqlForm(settings)) == m <==> ClosesCleanly(settings)
  {
    if settings == [] {
      EmptyForms();
      assert m == map[];
    } else {
      JoinedReadsBackIff(settings, m, ' ');
      JoinedReadsBackIff(settings, m, ',');
    }
  }

  /** A list that fails: its only value ends in an opening brace. */
  lemma OpeningBraceIsLost()
    ensures ParseReloptions(CatalogForm([("a", "x{")])) != map["a" := "x{"]
    ensures ParseReloptions(PsqlForm([("a", "x{")])) != map["a" := "x{"]
  {
    var settings, m := [("a", "x{")], map["a" := "x{"];
    assert IsPlain(settings[0]) && !ClosesCleanly(settings);
    assert ListsMap(settings, m);
    ParseInvertsPrintIff(settings, m);
  }

  lemma EmptyForms()
    ensures Strip("") == "" && Strip("{" + "" + "}") == ""
  {}

  lemma LastStripped(value: string)
    requires value != "" && All(IsValueChar, value)
    ensures StripEnd(value) == value <==> LastChar(value) != '{'
  {
    assert LastChar(value) in value;
    StripEndIsPrefix(value);
  }

  // ---- The consumer

  const THRESHOLD := "autovacuum_vacuum_threshold"
  const SCALE_FACTOR := "autovacuum_vacuum_scale_factor"

  datatype VacuumSettings = VacuumSettings(threshold: real, scaleFactor: real)

  /** `number` is Python's `float` on the text of an option. */
  function DeadTupleThreshold(reltuples: real, options: map<string, string>, s: VacuumSettings,
                              number: string -> real): real
  {
    var base := if THRESHOLD in options then number(options[THRESHOLD]) else s.threshold;
    var factor := if SCALE_FACTOR in options then number(options[SCALE_FACTOR]) else s.scaleFactor;
    base + factor * reltuples
  }

  /** Both knobs are set alike. */
  predicate SameKnobs(a: map<string, string>, b: map<string, string>) {
    SameAt(a, b, "autovacuum_vacuum_threshold") && SameAt(a, b, "autovacuum_vacuum_scale_factor")
  }

  predicate IsKnob(key: string) {
    key == "autovacuum_vacuum_threshold" || key == "autovacuum_vacuum_scale_factor"
  }

  /** Reading either form gives the two knobs of the map back exactly when the list closes
      cleanly or its last key is no knob. */
  lemma KnobsReadBackIff(settings: seq<Setting>, m: map<string, string>)
    requires ListsMap(settings, m) && ArePlain(settings)
    ensures SameKnobs(ParseReloptions(CatalogForm(settings)), m) <==> KnobsAreSafe(settings)
    ensures SameKnobs(ParseReloptions(PsqlForm(settings)), m) <==> KnobsAreSafe(settings)
  {
    ParseInvertsPrintIff(settings, m);
    if !ClosesCleanly(settings) {
      ShortenedKnobs(settings, m);
      PrintedReadsAs(settings, ' ');
      PrintedReadsAs(settings, ',');
    }
  }

  lemma ShortenedKnobs(settings: seq<Setting>, m: map<string, string>)
    requires ListsMap(settings, m) && ArePlain(settings) && !ClosesCleanly(settings)
    ensures SameKnobs(ToDict(WithLast(settings, StripEnd(settings[|settings| - 1].1))), m) <==>
            KnobsAreSafe(settings)
  {
    var last := settings[|settings| - 1];
    var core := StripEnd(last.1);
    assert core != last.1 by {
      SettingIffPlain(last);
      LastStripped(last.1);
    }
    ShortenedLosesLast(settings, m, core);
    forall k | k != last.0 ensures SameAt(ToDict(WithLast(settings, core)), m, k) {
      ShortenedKeepsOthers(settings, m, core, k);
    }
  }

  predicate KnobsAreSafe(settings: seq<Setting>) {
    ClosesCleanly(settings) || !IsKnob(settings[|settings| - 1].0)
  }

  /** The number autovacuum compares with takes each knob from the table's own options
      where they set it and from the cluster otherwise, in either printed form. */
  lemma ThresholdSeesOverrides(settings: seq<Setting>, m: map<string, string>, text: string,
                               reltuples: real, s: VacuumSettings, number: string -> real)
    requires ListsMap(settings, m) && ArePlain(settings) && KnobsAreSafe(settings)
    requires text == CatalogForm(settings) || text == PsqlForm(settings)
    ensures DeadTupleThreshold(reltuples, ParseReloptions(text), s, number) ==
            (if "autovacuum_vacuum_threshold" in m then number(m["autovacuum_vacuum_threshold"])
             else s.threshold) +
            (if "autovacuum_vacuum_scale_factor" in m then number(m["autovacuum_vacuum_scale_factor"])
             else s.scaleFactor) * reltuples
  {
    assert SameKnobs(ParseReloptions(text), m) by {
      KnobsReadBackIff(settings, m);
    }
  }

  /** Text of digits, points and signs. */
  predicate IsDecimal(text: string) {
    text != "" && forall c <- text :: '0' <= c <= '9' || c == '.' || c == '-' || c == '+'
  }

  /** A table that sets both knobs to numbers is judged by just these numbers, in either
      order and either form. */
  lemma BothKnobsCount(threshold: string, scale: string, settings: seq<Setting>, text: string,
                       reltuples: real, s: VacuumSettings, number: string -> real)
    requires IsDecimal(threshold) && IsDecimal(scale)
    requires ListsBothKnobs(settings, threshold, scale)
    requires text == CatalogForm(settings) || text == PsqlForm(settings)
    ensures DeadTupleThreshold(reltuples, ParseReloptions(text), s, number) ==
            number(threshold) + number(scale) * reltuples
  {
    KnobsDiffer();
    var m := map["autovacuum_vacuum_threshold" := threshold, "autovacuum_vacuum_scale_factor" := scale];
    assert ListsMap(settings, m) && ArePlain(settings) && KnobsAreSafe(settings) by {
      BothKnobsAreListed(settings, threshold, scale);
    }
    ThresholdSeesOverrides(settings, m, text, reltuples, s, number);
  }

  predicate ListsBothKnobs(settings: seq<Setting>, threshold: string, scale: string) {
    var a, b := ("autovacuum_vacuum_threshold", threshold), ("autovacuum_vacuum_scale_factor", scale);
    settings == [a, b] || settings == [b, a]
  }

  lemma BothKnobsAreListed(settings: seq<Setting>, threshold: string, scale: string)
    requires IsDecimal(threshold) && IsDecimal(scale) && ListsBothKnobs(settings, threshold, scale)
    ensures ListsMap(settings, map["autovacuum_vacuum_threshold" := threshold,
                                   "autovacuum_vacuum_scale_factor" := scale])
    ensures ArePlain(settings) && ClosesCleanly(settings)
  {
    var a, b := ("autovacuum_vacuum_threshold", threshold), ("autovacuum_vacuum_scale_factor", scale);
    KnobsDiffer();
    DecimalIsPlain(a.0, threshold);
    DecimalIsPlain(b.0, scale);
    TwoListTheirMap(a, b);
    TwoListTheirMap(b, a);
    assert map[b.0 := b.1, a.0 := a.1] == map[a.0 := a.1, b.0 := b.1];
  }

  lemma TwoListTheirMap(a: Setting, b: Setting)
    requires a.0 != b.0
    ensures ListsMap([a, b], map[a.0 := a.1, b.0 := b.1])
  {}

  lemma KnobsDiffer()
    ensures "autovacuum_vacuum_threshold" != "autovacuum_vacuum_scale_factor"
  {
    assert |"autovacuum_vacuum_threshold"| != |"autovacuum_vacuum_scale_factor"|;
  }

  lemma DecimalIsPlain(knob: string, text: string)
    requires IsKnob(knob) && IsDecimal(text)
    ensures IsPlain((knob, text)) && LastChar(text) != '{'
  {
    assert LastChar(text) in text;
  }

  // ---- Parsing any text

  /** Off both ends go all braces and blanks, and nothing else. */
  lemma StripIs(s: string) returns (before: string, after: string)
    ensures s == before + Strip(s) + after
    ensures forall c <- before + after :: c == '{' || c == '}' || c == ' '
    ensures Strip(s) != "" ==> Strip(s)[0] !in "{} " && LastChar(Strip(s)) !in "{} "
  {
    var n := Run(IsStripped, s);
    var rest := s[n..];
    RunIsAll(IsStripped, s);
    before := s[..n];
    after := StripEndIs(rest);
    forall c | c in before + after ensures c == '{' || c == '}' || c == ' ' {
      assert c in before ==> IsStripped(c);
    }
  }

  lemma {:induction false} StripEndIs(s: string) returns (after: string)
    ensures s == StripEnd(s) + after
    ensures forall c <- after :: c == '{' || c == '}' || c == ' '
    ensures StripEnd(s) != "" ==> LastChar(StripEnd(s)) !in "{} "
  {
    after := "";
    if s != "" && IsStripped(s[|s| - 1]) {
      after := StripEndIs(s[..|s| - 1]);
      after := after + [s[|s| - 1]];
    }
  }

  function Length(s: Setting): nat { |s.0| + 1 + |s.1| }

  lemma MatchLength(s: string)
    ensures MatchAt(s).Some? ==> MatchAt(s).value.1 == Length(MatchAt(s).value.0)
  {
    if MatchAt(s).Some? {
      MatchIsPrinted(s);
    }
  }

  /** What matches at each position of a text. */
  ghost function MatchesIn(s: string): seq<Option<Setting>> {
    seq(|s|, p requires 0 <= p < |s| => SettingAt(s[p..]))
  }

  ghost function SettingAt(s: string): Option<Setting> {
    match MatchAt(s)
    case Some((setting, _)) => Some(setting)
    case None => None
  }

  ghost predicate Takes(found: seq<Setting>, at: seq<nat>, p: int)
    requires |at| == |found|
  {
    exists k :: 0 <= k < |at| && at[k] <= p < at[k] + Length(found[k])
  }

  /** Settings found from position `from` on, from the left and without overlap: each is
      a match where it stands, they follow one another, and wherever else a match could
      start lies inside one taken. */
  ghost predicate FoundFrom(matches: seq<Option<Setting>>, from: nat, found: seq<Setting>, at: seq<nat>) {
    && |at| == |found|
    && (forall k | 0 <= k < |at| :: from <= at[k] < |matches| && matches[at[k]] == Some(found[k]))
    && (forall k, l | 0 <= k < l < |at| :: at[k] + Length(found[k]) <= at[l])
    && (forall p | from <= p < |matches| && matches[p].Some? :: Takes(found, at, p))
  }

  /** The scan finds all there is to find. */
  lemma {:induction false} ScanFinds(s: string, from: nat) returns (at: seq<nat>)
    requires from <= |s|
    ensures FoundFrom(MatchesIn(s), from, Scan(s[from..]), at)
    decreases |s| - from
  {
    at := [];
    if from < |s| {
      var one := SettingAt(s[from..]);
      var next := ScanStep(s, from);
      at := ScanFinds(s, next);
      assert MatchesIn(s)[from] == one;
      if one.Some? {
        TakeOne(MatchesIn(s), from, one.value, Scan(s[next..]), at);
        at := [from] + at;
      } else {
        SkipOne(MatchesIn(s), from, Scan(s[next..]), at);
      }
    }
  }

  /** One step of the scan: behind the match at `from`, or to the next character. */
  lemma ScanStep(s: string, from: nat) returns (next: nat)
    requires from < |s|
    ensures from < next <= |s|
    ensures var one := SettingAt(s[from..]);
            && next == (if one.Some? then from + Length(one.value) else from + 1)
            && Scan(s[from..]) == (if one.Some? then [one.value] else []) + Scan(s[next..])
  {
    MatchLength(s[from..]);
    match MatchAt(s[from..])
    case Some((setting, length)) =>
      next := from + length;
      assert s[from..][length..] == s[next..];
    case None =>
      next := from + 1;
      assert s[from..][1..] == s[next..];
  }

  lemma SkipOne(matches: seq<Option<Setting>>, from: nat, found: seq<Setting>, at: seq<nat>)
    requires from < |matches| && matches[from].None? && FoundFrom(matches, from + 1, found, at)
    ensures FoundFrom(matches, from, found, at)
  {}

  lemma TakeOne(matches: seq<Option<Setting>>, from: nat, one: Setting, found: seq<Setting>, at: seq<nat>)
    requires from < |matches| && matches[from] == Some(one)
    requires FoundFrom(matches, from + Length(one), found, at)
    ensures FoundFrom(matches, from, [one] + found, [from] + at)
  {
    forall p | from <= p < |matches| && matches[p].Some? ensures Takes([one] + found, [from] + at, p) {
      TakesOneMore(one, from, found, at, p);
    }
    FollowsOneMore(one, from, found, at);
    StandsOneMore(matches, from, one, found, at);
  }

  lemma StandsOneMore(matches: seq<Option<Setting>>, from: nat, one: Setting, found: seq<Setting>, at: seq<nat>)
    requires from < |matches| && matches[from] == Some(one) && |at| == |found|
    requires forall k | 0 <= k < |at| :: from <= at[k] < |matches| && matches[at[k]] == Some(found[k])
    ensures forall k | 0 <= k < |at| + 1 ::
              from <= ([from] + at)[k] < |matches| && matches[([from] + at)[k]] == Some(([one] + found)[k])
  {}

  lemma TakesOneMore(one: Setting, from: nat, found: seq<Setting>, at: seq<nat>, p: int)
    requires |at| == |found|
    requires from <= p < from + Length(one) || Takes(found, at, p)
    ensures Takes([one] + found, [from] + at, p)
  {
    if from <= p < from + Length(one) {
      assert ([from] + at)[0] <= p < ([from] + at)[0] + Length(([one] + found)[0]);
    } else {
      var k :| 0 <= k < |at| && at[k] <= p < at[k] + Length(found[k]);
      assert ([from] + at)[k + 1] <= p < ([from] + at)[k + 1] + Length(([one] + found)[k + 1]);
    }
  }

  lemma FollowsOneMore(one: Setting, from: nat, found: seq<Setting>, at: seq<nat>)
    requires |at| == |found| && forall k | 0 <= k < |at| :: from + Length(one) <= at[k]
    requires forall k, l | 0 <= k < l < |at| :: at[k] + Length(found[k]) <= at[l]
    ensures var at', all := [from] + at, [one] + found;
            forall k, l | 0 <= k < l < |at'| :: at'[k] + Length(all[k]) <= at'[l]
  {}

  /** The dict has the keys of the settings, each with its last value. */
  lemma {:induction false} LastValueStands(settings: seq<Setting>, i: nat)
    requires i < |settings| && forall j | i < j < |settings| :: settings[j].0 != settings[i].0
    ensures settings[i].0 in ToDict(settings) && ToDict(settings)[settings[i].0] == settings[i].1
  {
    var n := |settings| - 1;
    if i < n {
      LastValueStands(settings[..n], i);
    }
  }

  lemma {:induction false} DictKeysAre(settings: seq<Setting>, k: string)
    ensures k in ToDict(settings) <==> exists s <- settings :: s.0 == k
  {
    if settings != [] {
      var n := |settings| - 1;
      assert settings == settings[..n] + [settings[n]];
      DictKeysAre(settings[..n], k);
    }
  }
}
