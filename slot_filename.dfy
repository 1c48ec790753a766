/**
 * The slot number a plugin reads from its own file name: `ClaudeBar-3.5s.sh`
 * is slot 3. The zsh test `[[ "$BASENAME" =~ ^ClaudeBar-([0-9]+)\. ]]` sets
 * SLOT_NUM to the captured digits; a name that does not match keeps the
 * default slot 1.
 */
module SlotFilename {

  const PluginPrefix: string := "ClaudeBar-"
  const DefaultSlot: nat := 1

  predicate IsDigit(c: char)
  {
    '0' <= c <= '9'
  }

  predicate AllDigits(d: string)
  {
    forall i :: 0 <= i < |d| ==> IsDigit(d[i])
  }

  /** The longest run of digits that starts `s`: what the greedy `[0-9]+`
      can take before the next character. */
  function LeadingDigits(s: string): (d: string)
    ensures |d| <= |s| && d == s[..|d|]
    ensures AllDigits(d)
    ensures |d| < |s| ==> !IsDigit(s[|d|])
  {
    if s == [] || !IsDigit(s[0]) then []
    else [s[0]] + LeadingDigits(s[1..])
  }

  /** The decimal value of a digit string. */
  function DigitsValue(d: string): nat
    requires AllDigits(d)
  {
    if d == [] then 0
    else DigitsValue(d[..|d| - 1]) * 10 + (d[|d| - 1] as int - '0' as int)
  }

  /** SLOT_NUM for a plugin file name. */
  function SlotNumber(name: string): (slot: nat)
    ensures slot != DefaultSlot ==>
              && |name| > |PluginPrefix|
              && name[..|PluginPrefix|] == PluginPrefix
              && IsDigit(name[|PluginPrefix|])
  {
    if |name| >= |PluginPrefix| && name[..|PluginPrefix|] == PluginPrefix then
      var rest := name[|PluginPrefix|..];
      var d := LeadingDigits(rest);
      if |d| > 0 && |d| < |rest| && rest[|d|] == '.' then DigitsValue(d) else DefaultSlot
    else DefaultSlot
  }

  lemma {:induction false} LeadingDigitsStop(d: string, tail: string)
    requires AllDigits(d)
    requires |tail| > 0 && !IsDigit(tail[0])
    ensures LeadingDigits(d + tail) == d
  {
    if d != [] {
      assert (d + tail)[1..] == d[1..] + tail;
      LeadingDigitsStop(d[1..], tail);
    }
  }

  /** A name `ClaudeBar-<digits>.<anything>` gives the value of the digits. */
  lemma SlotNumberOfMatch(d: string, tail: string)
    requires |d| > 0 && AllDigits(d)
    ensures SlotNumber(PluginPrefix + d + "." + tail) == DigitsValue(d)
  {
    var after := "." + tail;
    var rest := d + after;
    var name := PluginPrefix + rest;
    assert name == PluginPrefix + d + "." + tail;
    assert name[..|PluginPrefix|] == PluginPrefix;
    assert name[|PluginPrefix|..] == rest;
    LeadingDigitsStop(d, after);
    assert LeadingDigits(rest) == d;
    assert |d| < |rest| && rest[|d|] == '.';
  }

  /** Any name that gives a slot other than the default matches the
      pattern: a name that does not match gives slot 1. */
  lemma NonDefaultSlotMatches(name: string) returns (d: string, tail: string)
    requires SlotNumber(name) != DefaultSlot
    ensures |d| > 0 && AllDigits(d)
    ensures name == PluginPrefix + d + "." + tail
    ensures SlotNumber(name) == DigitsValue(d)
  {
    var rest := name[|PluginPrefix|..];
    d := LeadingDigits(rest);
    tail := rest[|d| + 1..];
    assert rest == d + "." + tail;
    assert name == name[..|PluginPrefix|] + rest;
  }

  function Digit(k: nat): (c: char)
    requires k < 10
    ensures IsDigit(c) && c as int - '0' as int == k
  {
    ('0' as int + k) as char
  }

  /** The decimal numeral of `n`, without leading zeros. */
  function Decimal(n: nat): (d: string)
    ensures |d| > 0 && AllDigits(d)
  {
    if n < 10 then [Digit(n)] else Decimal(n / 10) + [Digit(n % 10)]
  }

  lemma {:induction false} DecimalValue(n: nat)
    ensures DigitsValue(Decimal(n)) == n
  {
    if n >= 10 {
      DecimalValue(n / 10);
      var d := Decimal(n);
      assert d[..|d| - 1] == Decimal(n / 10);
    }
  }

  /** Naming the plugin after slot n and reading the slot back gives n. */
  lemma SlotNumberRoundTrip(n: nat, tail: string)
    ensures SlotNumber(PluginPrefix + Decimal(n) + "." + tail) == n
  {
    SlotNumberOfMatch(Decimal(n), tail);
    DecimalValue(n);
  }

  lemma NamedSlot(name: string, d: string, tail: string)
    requires |d| > 0 && AllDigits(d)
    requires name == PluginPrefix + d + "." + tail
    ensures SlotNumber(name) == DigitsValue(d)
  {
    SlotNumberOfMatch(d, tail);
  }

  /** The file names of test/test_slot_mapping.py; a name without
      `-<digits>.` keeps the default slot. */
  lemma PluginFileNames()
    ensures SlotNumber("ClaudeBar-1.2s.sh") == 1
    ensures SlotNumber("ClaudeBar-5.2s.sh") == 5
    ensures SlotNumber("ClaudeBar-3.5s.sh") == 3
    ensures SlotNumber("ClaudeBar.sh") == DefaultSlot
  {
    NamedSlot("ClaudeBar-1.2s.sh", "1", "2s.sh");
    NamedSlot("ClaudeBar-5.2s.sh", "5", "2s.sh");
    NamedSlot("ClaudeBar-3.5s.sh", "3", "5s.sh");
    assert "ClaudeBar.sh"[9] == '.';
  }
}
