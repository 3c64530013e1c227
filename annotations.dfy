/** The `component` struct-tag parser: a comma-separated list of `key=value`
    settings, of which `name` and `priority` are understood. The helpers
    model the behaviour of Go's `strings.Split`, `strings.TrimSpace` and
    `strconv.Atoi` on the inputs the parser gives them. */
module Annotations {
  import opened Model

  datatype ComponentConfig = ComponentConfig(name: string, priority: int)

  const DefaultPriority: int := 100

  // ----- strings.Split with a one-character separator -----

  /** Go's `strings.Split(s, sep)`: the pieces between separators, always at
      least one (`""` splits into `[""]`). */
  function Split(s: string, sep: char): (parts: seq<string>)
    ensures |parts| >= 1
  {
    if s == [] then [""]
    else
      var init := Split(s[..|s| - 1], sep);
      var c := s[|s| - 1];
      if c == sep then init + [""]
      else init[..|init| - 1] + [init[|init| - 1] + [c]]
  }

  /** Go's `strings.Join(parts, sep)`, the inverse of `Split`. */
  function Join(parts: seq<string>, sep: char): (r: string)
    requires |parts| >= 1
  {
    if |parts| == 1 then parts[0]
    else Join(parts[..|parts| - 1], sep) + [sep] + parts[|parts| - 1]
  }

  function CountChar(s: string, c: char): (r: nat) {
    if s == [] then 0 else CountChar(s[..|s| - 1], c) + (if s[|s| - 1] == c then 1 else 0)
  }

  /** Splitting loses nothing: joining the pieces gives the string back. */
  lemma {:induction false} JoinSplit(s: string, sep: char)
    ensures Join(Split(s, sep), sep) == s
  {
    if s != [] {
      var p := s[..|s| - 1];
      var init := Split(p, sep);
      var c := s[|s| - 1];
      JoinSplit(p, sep);
      if c == sep {
        assert (init + [""])[..|init|] == init;
      } else {
        var m := |init| - 1;
        var parts := init[..m] + [init[m] + [c]];
        if m > 0 {
          assert parts[..m] == init[..m];
          assert init[..m][..m - 1] == init[..m - 1];
          assert init[..m] == init[..m - 1] + [init[m - 1]];
          assert Join(init, sep) == Join(init[..m], sep) + [sep] + init[m];
        }
      }
      assert s == p + [c];
    }
  }

  /** One piece more than there are separators, and no piece holds one. */
  lemma {:induction false} SplitCount(s: string, sep: char)
    ensures |Split(s, sep)| == CountChar(s, sep) + 1
    ensures forall i :: 0 <= i < |Split(s, sep)| ==> sep !in Split(s, sep)[i]
  {
    if s != [] {
      SplitCount(s[..|s| - 1], sep);
    }
  }

  // ----- strings.TrimSpace -----

  /** Go's `unicode.IsSpace`. */
  predicate IsSpace(c: char) {
    || c == '\t' || c == '\n' || c == '\U{000B}' || c == '\U{000C}' || c == '\r' || c == ' '
    || c == '\U{0085}' || c == '\U{00A0}' || c == '\U{1680}'
    || ('\U{2000}' <= c <= '\U{200A}')
    || c == '\U{2028}' || c == '\U{2029}' || c == '\U{202F}' || c == '\U{205F}' || c == '\U{3000}'
  }

  function TrimLeft(s: string): (r: string) {
    if s != [] && IsSpace(s[0]) then TrimLeft(s[1..]) else s
  }

  function TrimRight(s: string): (r: string) {
    if s != [] && IsSpace(s[|s| - 1]) then TrimRight(s[..|s| - 1]) else s
  }

  /** Go's `strings.TrimSpace`: `s` without its leading and trailing white space. */
  function TrimSpace(s: string): (r: string) {
    TrimRight(TrimLeft(s))
  }

  /** How many white-space characters `s` starts with. */
  function Leading(s: string): (n: nat)
    ensures n <= |s|
  {
    if s != [] && IsSpace(s[0]) then 1 + Leading(s[1..]) else 0
  }

  /** How many white-space characters `s` ends with. */
  function Trailing(s: string): (n: nat)
    ensures n <= |s|
  {
    if s != [] && IsSpace(s[|s| - 1]) then 1 + Trailing(s[..|s| - 1]) else 0
  }

  lemma {:induction false} TrimLeftIsSlice(s: string)
    ensures TrimLeft(s) == s[Leading(s)..]
    ensures forall k :: 0 <= k < Leading(s) ==> IsSpace(s[k])
    ensures TrimLeft(s) == [] || !IsSpace(TrimLeft(s)[0])
  {
    if s != [] && IsSpace(s[0]) {
      TrimLeftIsSlice(s[1..]);
      forall k | 0 < k < Leading(s) ensures IsSpace(s[k]) {
        assert s[k] == s[1..][k - 1];
      }
    }
  }

  lemma {:induction false} TrimRightIsSlice(s: string)
    ensures TrimRight(s) == s[..|s| - Trailing(s)]
    ensures forall k :: |s| - Trailing(s) <= k < |s| ==> IsSpace(s[k])
    ensures TrimRight(s) == [] || !IsSpace(TrimRight(s)[|TrimRight(s)| - 1])
  {
    if s != [] && IsSpace(s[|s| - 1]) {
      var p := s[..|s| - 1];
      TrimRightIsSlice(p);
      forall k | |s| - Trailing(s) <= k < |s| - 1 ensures IsSpace(s[k]) {
        assert s[k] == p[k];
      }
    }
  }

  /** The trimmed string is `s` with its leading and its trailing white space
      cut off, and it neither starts nor ends with white space. */
  lemma TrimSpaceShape(s: string)
    ensures var i := Leading(s); var j := i + |TrimSpace(s)|;
      && j <= |s| && TrimSpace(s) == s[i..j]
      && (forall k :: 0 <= k < i ==> IsSpace(s[k]))
      && (forall k :: j <= k < |s| ==> IsSpace(s[k]))
    ensures TrimSpace(s) == [] || (!IsSpace(TrimSpace(s)[0]) && !IsSpace(TrimSpace(s)[|TrimSpace(s)| - 1]))
  {
    var l := TrimLeft(s);
    TrimLeftIsSlice(s);
    TrimRightIsSlice(l);
    var i := Leading(s);
    forall k | i + |TrimSpace(s)| <= k < |s| ensures IsSpace(s[k]) {
      assert s[k] == l[k - i];
    }
  }

  // ----- strconv.Atoi on a 64-bit platform -----

  const MinInt: int := -0x8000_0000_0000_0000
  const MaxInt: int :=  0x7FFF_FFFF_FFFF_FFFF

  predicate IsDigit(c: char) { '0' <= c <= '9' }

  predicate AllDigits(s: string) { forall k :: 0 <= k < |s| ==> IsDigit(s[k]) }

  /** The value of a string of decimal digits. */
  function DigitsValue(s: string): (r: nat)
    requires AllDigits(s)
  {
    if s == [] then 0 else 10 * DigitsValue(s[..|s| - 1]) + (s[|s| - 1] as int - '0' as int)
  }

  /** `strconv.Atoi`: an optional sign and at least one decimal digit, and a
      value that fits in a 64-bit `int`; anything else is an error (`None`). */
  function Atoi(s: string): (r: Option<int>)
    ensures r.Some? ==> MinInt <= r.value <= MaxInt
  {
    var neg := |s| > 0 && s[0] == '-';
    var digits := if |s| > 0 && (s[0] == '-' || s[0] == '+') then s[1..] else s;
    if digits == [] || !AllDigits(digits) then None
    else
      var d: int := DigitsValue(digits);
      var v := if neg then -d else d;
      if MinInt <= v <= MaxInt then Some(v) else None
  }

  /** Decimal text of a natural number, no leading zeros. */
  function Decimal(n: nat): (s: string)
    ensures |s| >= 1 && AllDigits(s)
  {
    if n < 10 then ['0' + n as char]
    else Decimal(n / 10) + ['0' + (n % 10) as char]
  }

  lemma {:induction false} DecimalValue(n: nat)
    ensures DigitsValue(Decimal(n)) == n
  {
    if n >= 10 {
      DecimalValue(n / 10);
      var s := Decimal(n);
      assert s[..|s| - 1] == Decimal(n / 10);
    }
  }

  /** Go's `strconv.Itoa`. */
  function Itoa(n: int): (r: string) {
    if n < 0 then "-" + Decimal(-n) else Decimal(n)
  }

  /** Printing an `int` and parsing it back gives the same `int`. */
  lemma AtoiItoa(n: int)
    requires MinInt <= n <= MaxInt
    ensures Atoi(Itoa(n)) == Some(n)
  {
    if n < 0 {
      DecimalValue(-n);
      assert ("-" + Decimal(-n))[1..] == Decimal(-n);
    } else {
      DecimalValue(n);
    }
  }

  // ----- ParseComponentTag -----

  /** The value a part assigns to `name`, if it is a `name=value` part. */
  function NameSetting(part: string): (r: Option<string>) {
    var kv := Split(TrimSpace(part), '=');
    if |kv| == 2 && TrimSpace(kv[0]) == "name" then Some(TrimSpace(kv[1])) else None
  }

  /** The value a part assigns to `priority`, if it is a `priority=value` part
      whose value is an integer. */
  function PrioritySetting(part: string): (r: Option<int>) {
    var kv := Split(TrimSpace(part), '=');
    if |kv| == 2 && TrimSpace(kv[0]) == "priority" then Atoi(TrimSpace(kv[1])) else None
  }

  /** The last setting given, or the default when none is. */
  function Last<T>(settings: seq<Option<T>>, default: T): (r: T) {
    if settings == [] then default
    else match settings[|settings| - 1]
      case Some(v) => v
      case None => Last(settings[..|settings| - 1], default)
  }

  /** The `name` setting of each part, in order. */
  function NameSettings(parts: seq<string>): (r: seq<Option<string>>) {
    if parts == [] then [] else NameSettings(parts[..|parts| - 1]) + [NameSetting(parts[|parts| - 1])]
  }

  /** The `priority` setting of each part, in order. */
  function PrioritySettings(parts: seq<string>): (r: seq<Option<int>>) {
    if parts == [] then [] else PrioritySettings(parts[..|parts| - 1]) + [PrioritySetting(parts[|parts| - 1])]
  }

  /** Parses a `component` tag. The name is the value of the last `name=`
      part (empty if none); the priority is the value of the last `priority=`
      part with an integer value (100 if none). */
  method ParseComponentTag(tag: string) returns (config: ComponentConfig)
    ensures config.name == Last(NameSettings(Split(tag, ',')), "")
    ensures config.priority == Last(PrioritySettings(Split(tag, ',')), DefaultPriority)
  {
    config := ComponentConfig("", DefaultPriority);
    if tag == "" {
      assert Split(tag, ',') == [""];
      assert NameSettings([""]) == [NameSetting("")];
      assert PrioritySettings([""]) == [PrioritySetting("")];
      return;
    }
    var parts := Split(tag, ',');
    var i := 0;
    while i < |parts|
      invariant 0 <= i <= |parts|
      invariant config.name == Last(NameSettings(parts[..i]), "")
      invariant config.priority == Last(PrioritySettings(parts[..i]), DefaultPriority)
    {
      var part := parts[i];
      assert parts[..i + 1][..i] == parts[..i];
      assert NameSettings(parts[..i + 1]) == NameSettings(parts[..i]) + [NameSetting(part)];
      assert PrioritySettings(parts[..i + 1]) == PrioritySettings(parts[..i]) + [PrioritySetting(part)];
      var kv := Split(TrimSpace(part), '=');
      if |kv| != 2 {
        i := i + 1;
        continue;
      }
      var key := TrimSpace(kv[0]);
      var value := TrimSpace(kv[1]);
      if key == "name" {
        config := config.(name := value);
      } else if key == "priority" {
        var p := Atoi(value);
        if p.Some? {
          config := config.(priority := p.value);
        }
      }
      i := i + 1;
    }
    assert parts[..i] == parts;
  }

  // ----- What the parser promises -----

  /** An empty tag gives the empty name and priority 100. */
  lemma EmptyTagDefaults()
    ensures Last(NameSettings(Split("", ',')), "") == ""
    ensures Last(PrioritySettings(Split("", ',')), DefaultPriority) == 100
  {
    assert Split("", ',') == [""];
    assert NameSettings([""]) == [NameSetting("")];
    assert PrioritySettings([""]) == [PrioritySetting("")];
  }

  /** A part that does not contain exactly one `=` sets nothing. */
  lemma MalformedPartIgnored(part: string)
    requires CountChar(TrimSpace(part), '=') != 1
    ensures NameSetting(part) == None && PrioritySetting(part) == None
  {
    SplitCount(TrimSpace(part), '=');
  }

  /** A part with a key other than `name` and `priority` sets nothing. */
  lemma UnknownKeyIgnored(part: string)
    requires var kv := Split(TrimSpace(part), '=');
      |kv| == 2 ==> TrimSpace(kv[0]) != "name" && TrimSpace(kv[0]) != "priority"
    ensures NameSetting(part) == None && PrioritySetting(part) == None
  {
  }

  /** `priority=` with a value that is not an integer sets nothing. */
  lemma BadPriorityIgnored(part: string)
    requires var kv := Split(TrimSpace(part), '=');
      |kv| == 2 ==> Atoi(TrimSpace(kv[1])).None?
    ensures PrioritySetting(part) == None
  {
  }

  /** The last setting wins: with `settings[k]` the last one given, the result
      is its value. */
  lemma {:induction false} LastWins<T>(settings: seq<Option<T>>, default: T, k: nat)
    requires k < |settings| && settings[k].Some?
    requires forall j :: k < j < |settings| ==> settings[j].None?
    ensures Last(settings, default) == settings[k].value
  {
    if k < |settings| - 1 {
      LastWins(settings[..|settings| - 1], default, k);
    }
  }

  /** With no setting given, the default stays. */
  lemma {:induction false} LastDefault<T>(settings: seq<Option<T>>, default: T)
    requires forall j :: 0 <= j < |settings| ==> settings[j].None?
    ensures Last(settings, default) == default
  {
    if settings != [] {
      LastDefault(settings[..|settings| - 1], default);
    }
  }

  /** Part `j` of the tag gives setting `j`. */
  lemma SettingsAt(parts: seq<string>)
    ensures |NameSettings(parts)| == |parts| && |PrioritySettings(parts)| == |parts|
    ensures forall j :: 0 <= j < |parts| ==>
      NameSettings(parts)[j] == NameSetting(parts[j]) && PrioritySettings(parts)[j] == PrioritySetting(parts[j])
  {
    NameSettingsAt(parts);
    PrioritySettingsAt(parts);
  }

  lemma {:induction false} NameSettingsAt(parts: seq<string>)
    ensures |NameSettings(parts)| == |parts|
    ensures forall j :: 0 <= j < |parts| ==> NameSettings(parts)[j] == NameSetting(parts[j])
  {
    if parts != [] {
      var n := |parts| - 1;
      NameSettingsAt(parts[..n]);
      var prefix := NameSettings(parts[..n]);
      assert NameSettings(parts) == prefix + [NameSetting(parts[n])];
      forall j | 0 <= j < n
        ensures NameSettings(parts)[j] == NameSetting(parts[j])
      {
        assert prefix[j] == NameSetting(parts[..n][j]);
        assert parts[..n][j] == parts[j];
      }
    }
  }

  lemma {:induction false} PrioritySettingsAt(parts: seq<string>)
    ensures |PrioritySettings(parts)| == |parts|
    ensures forall j :: 0 <= j < |parts| ==> PrioritySettings(parts)[j] == PrioritySetting(parts[j])
  {
    if parts != [] {
      var n := |parts| - 1;
      PrioritySettingsAt(parts[..n]);
      var prefix := PrioritySettings(parts[..n]);
      assert PrioritySettings(parts) == prefix + [PrioritySetting(parts[n])];
      forall j | 0 <= j < n
        ensures PrioritySettings(parts)[j] == PrioritySetting(parts[j])
      {
        assert prefix[j] == PrioritySetting(parts[..n][j]);
        assert parts[..n][j] == parts[j];
      }
    }
  }

  /** A tag with no well-formed integer `priority` part gets priority 100. */
  lemma NoPriorityDefault(tag: string)
    requires forall part :: part in Split(tag, ',') ==> PrioritySetting(part).None?
    ensures Last(PrioritySettings(Split(tag, ',')), DefaultPriority) == 100
  {
    var parts := Split(tag, ',');
    SettingsAt(parts);
    assert forall j :: 0 <= j < |parts| ==> PrioritySettings(parts)[j].None? by {
      forall j | 0 <= j < |parts| ensures PrioritySettings(parts)[j].None? {
        assert parts[j] in parts;
      }
    }
    LastDefault(PrioritySettings(parts), DefaultPriority);
  }

  /** When a key repeats, the last valid occurrence decides the name. */
  lemma LastNameWins(tag: string, k: nat)
    requires k < |Split(tag, ',')| && NameSetting(Split(tag, ',')[k]).Some?
    requires forall j :: k < j < |Split(tag, ',')| ==> NameSetting(Split(tag, ',')[j]).None?
    ensures Last(NameSettings(Split(tag, ',')), "") == NameSetting(Split(tag, ',')[k]).value
  {
    SettingsAt(Split(tag, ','));
    LastWins(NameSettings(Split(tag, ',')), "", k);
  }

  /** When a key repeats, the last valid occurrence decides the priority. */
  lemma LastPriorityWins(tag: string, k: nat)
    requires k < |Split(tag, ',')| && PrioritySetting(Split(tag, ',')[k]).Some?
    requires forall j :: k < j < |Split(tag, ',')| ==> PrioritySetting(Split(tag, ',')[j]).None?
    ensures Last(PrioritySettings(Split(tag, ',')), DefaultPriority) == PrioritySetting(Split(tag, ',')[k]).value
  {
    SettingsAt(Split(tag, ','));
    LastWins(PrioritySettings(Split(tag, ',')), DefaultPriority, k);
  }
}
