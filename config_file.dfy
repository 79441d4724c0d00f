/**
 * The configuration helpers of src/config_file.cpp: lookups in a key/value
 * map, whitespace trimming, and the `key:value` line reader that fills the
 * map from a file.
 */
module ConfigFile {
  import opened CStrings

  /** A `std::map<std::string, std::string>` of settings. */
  type Config = map<string, string>

  /** `has_key`: the lookup finds an entry exactly when the key is present. */
  function HasKey(key: string, config: Config): (found: bool)
    ensures found <==> key in config
  {
    if key !in config then false else true
  }

  /** `value_or`: the stored value, or the default when the key is missing.
      The map is a value here, so the lookup cannot change it. */
  function ValueOr(key: string, config: Config, defaultVal: string): (value: string)
    ensures key in config ==> value == config[key]
    ensures key !in config ==> value == defaultVal
  {
    if !HasKey(key, config) then defaultVal else config[key]
  }

  // ---------------------------------------------------------------------------
  // Trimming

  /** `std::isspace` in the "C" locale: space, tab, newline, vertical tab,
      form feed and carriage return. */
  predicate IsSpace(c: char)
    ensures IsSpace(c) <==> c in {' ', '\t', '\n', '\U{000B}', '\U{000C}', '\r'}
  {
    c == ' ' || ('\t' <= c <= '\r')
  }

  /** The input without its leading whitespace: a suffix of the input, whose
      removed prefix is all whitespace, and which is empty or starts with a
      non-space character. */
  function LTrimmed(s: string): (r: string)
    ensures |r| <= |s| && r == s[|s| - |r|..]
    ensures forall i :: 0 <= i < |s| - |r| ==> IsSpace(s[i])
    ensures r == [] || !IsSpace(r[0])
  {
    if s != [] && IsSpace(s[0]) then
      var r := LTrimmed(s[1..]);
      assert s[1..][|s| - 1 - |r|..] == s[|s| - |r|..];
      r
    else s
  }

  /** The input without its trailing whitespace: a prefix of the input, whose
      removed suffix is all whitespace, and which is empty or ends with a
      non-space character. */
  function RTrimmed(s: string): (r: string)
    ensures |r| <= |s| && r == s[..|r|]
    ensures forall i :: |r| <= i < |s| ==> IsSpace(s[i])
    ensures r == [] || !IsSpace(r[|r| - 1])
  {
    if s != [] && IsSpace(s[|s| - 1]) then
      var r := RTrimmed(s[..|s| - 1]);
      assert s[..|s| - 1][..|r|] == s[..|r|];
      r
    else s
  }

  /** How many whitespace characters `ltrim` removes. */
  function LeadingSpaces(s: string): (n: nat)
  {
    |s| - |LTrimmed(s)|
  }

  /** Both ends trimmed, left first, as `trim` does. */
  function Trimmed(s: string): (r: string)
  {
    RTrimmed(LTrimmed(s))
  }

  /** The three properties above pin the trimmed string down: a cut that
      removes only whitespace and stops at a non-space character is `LTrimmed`. */
  lemma LTrimmedAt(s: string, k: nat)
    requires k <= |s|
    requires forall i :: 0 <= i < k ==> IsSpace(s[i])
    requires k < |s| ==> !IsSpace(s[k])
    ensures LTrimmed(s) == s[k..]
  {
  }

  lemma RTrimmedAt(s: string, e: nat)
    requires e <= |s|
    requires forall i :: e <= i < |s| ==> IsSpace(s[i])
    requires e > 0 ==> !IsSpace(s[e - 1])
    ensures RTrimmed(s) == s[..e]
  {
  }

  /** What `trim` keeps is the piece of the input that starts after the
      leading whitespace. */
  lemma TrimmedSlice(s: string)
    ensures LeadingSpaces(s) + |Trimmed(s)| <= |s|
    ensures Trimmed(s) == s[LeadingSpaces(s)..LeadingSpaces(s) + |Trimmed(s)|]
  {
    var l := LTrimmed(s);
    PrefixOfSuffix(s, |s| - |l|, RTrimmed(l));
  }

  /** A prefix of the suffix starting at `a` is the slice starting at `a`. */
  lemma PrefixOfSuffix(s: string, a: nat, r: string)
    requires a <= |s| && r <= s[a..]
    ensures a + |r| <= |s| && r == s[a..a + |r|]
  {
  }

  /** `trim` removes whitespace at both ends and nothing else: the result is
      a contiguous piece of the input, everything before and after it is
      whitespace, and it is empty or starts and ends with a non-space. */
  lemma TrimmedSpec(s: string)
    ensures LeadingSpaces(s) + |Trimmed(s)| <= |s|
    ensures Trimmed(s) == s[LeadingSpaces(s)..LeadingSpaces(s) + |Trimmed(s)|]
    ensures forall i :: 0 <= i < LeadingSpaces(s) ==> IsSpace(s[i])
    ensures forall i :: LeadingSpaces(s) + |Trimmed(s)| <= i < |s| ==> IsSpace(s[i])
    ensures Trimmed(s) == [] || (!IsSpace(Trimmed(s)[0]) && !IsSpace(Trimmed(s)[|Trimmed(s)| - 1]))
  {
    TrimmedSlice(s);
    var l := LTrimmed(s);
    var r := RTrimmed(l);
    var a := LeadingSpaces(s);
    forall i | a + |r| <= i < |s|
      ensures IsSpace(s[i])
    {
      assert s[i] == l[i - a];
    }
    if r != [] {
      assert r[0] == l[0];
    }
  }

  /** Trimming twice is trimming once. */
  lemma TrimIdempotent(s: string)
    ensures Trimmed(Trimmed(s)) == Trimmed(s)
  {
    var r := Trimmed(s);
    TrimmedSpec(s);
    LTrimmedAt(r, 0);
    RTrimmedAt(r, |r|);
  }

  lemma LTrimIdempotent(s: string)
    ensures LTrimmed(LTrimmed(s)) == LTrimmed(s)
  {
    LTrimmedAt(LTrimmed(s), 0);
  }

  lemma RTrimIdempotent(s: string)
    ensures RTrimmed(RTrimmed(s)) == RTrimmed(s)
  {
    RTrimmedAt(RTrimmed(s), |RTrimmed(s)|);
  }

  /** A `std::string` the trims take by reference and erase from in place. */
  class StdString {
    var chars: string

    constructor (s: string)
      ensures chars == s
    {
      chars := s;
    }
  }

  /** `std::find_if(s.begin(), s.end(), not isspace)`: the index of the first
      non-space character, or the length when there is none. */
  method FindFirstNonSpace(s: string) returns (first: nat)
    ensures first <= |s|
    ensures forall i :: 0 <= i < first ==> IsSpace(s[i])
    ensures first < |s| ==> !IsSpace(s[first])
  {
    first := 0;
    while first < |s| && IsSpace(s[first])
      invariant first <= |s|
      invariant forall i :: 0 <= i < first ==> IsSpace(s[i])
    {
      first := first + 1;
    }
  }

  /** `std::find_if(s.rbegin(), s.rend(), not isspace).base()`: the index just
      past the last non-space character, or 0 when there is none. */
  method FindEndOfNonSpace(s: string) returns (end: nat)
    ensures end <= |s|
    ensures forall i :: end <= i < |s| ==> IsSpace(s[i])
    ensures end > 0 ==> !IsSpace(s[end - 1])
  {
    end := |s|;
    while end > 0 && IsSpace(s[end - 1])
      invariant end <= |s|
      invariant forall i :: end <= i < |s| ==> IsSpace(s[i])
    {
      end := end - 1;
    }
  }

  /** `ltrim`: erases from the beginning up to the first non-space character. */
  method LTrim(s: StdString)
    modifies s
    ensures s.chars == LTrimmed(old(s.chars))
  {
    var first := FindFirstNonSpace(s.chars);
    LTrimmedAt(s.chars, first);
    s.chars := s.chars[first..];
  }

  /** `rtrim`: erases from just past the last non-space character to the end. */
  method RTrim(s: StdString)
    modifies s
    ensures s.chars == RTrimmed(old(s.chars))
  {
    var end := FindEndOfNonSpace(s.chars);
    RTrimmedAt(s.chars, end);
    s.chars := s.chars[..end];
  }

  /** `trim`: `ltrim` then `rtrim`. */
  method Trim(s: StdString)
    modifies s
    ensures s.chars == Trimmed(old(s.chars))
  {
    LTrim(s);
    RTrim(s);
  }

  /** `ltrim_copy`: trims a copy; the caller's string is passed by value and
      cannot change. */
  method LTrimCopy(s: string) returns (r: string)
    ensures r == LTrimmed(s)
  {
    var copy := new StdString(s);
    LTrim(copy);
    r := copy.chars;
  }

  /** `rtrim_copy`. */
  method RTrimCopy(s: string) returns (r: string)
    ensures r == RTrimmed(s)
  {
    var copy := new StdString(s);
    RTrim(copy);
    r := copy.chars;
  }

  /** `trim_copy`. */
  method TrimCopy(s: string) returns (r: string)
    ensures r == Trimmed(s)
  {
    var copy := new StdString(s);
    Trim(copy);
    r := copy.chars;
  }

  // ---------------------------------------------------------------------------
  // Reading the configuration file

  /** `readStringUntil(terminator)` on a character stream: the text before the
      first terminator and what follows it (the terminator itself is
      consumed); the whole input and nothing when there is no terminator. */
  function SplitAt(input: seq<char>, terminator: char): (parts: (seq<char>, seq<char>))
    ensures terminator !in parts.0
    ensures terminator in input ==> input == parts.0 + [terminator] + parts.1
    ensures terminator !in input ==> parts.0 == input && parts.1 == []
    ensures input != [] ==> |parts.1| < |input|
  {
    if input == [] then ([], [])
    else if input[0] == terminator then ([], input[1..])
    else
      var (before, after) := SplitAt(input[1..], terminator);
      assert input == [input[0]] + input[1..];
      ([input[0]] + before, after)
  }

  /** An open Arduino `File`: the characters not yet read. */
  class File {
    var remaining: seq<char>

    constructor (contents: seq<char>)
      ensures remaining == contents
    {
      remaining := contents;
    }

    /** `available()`: whether any character is left. */
    method Available() returns (more: bool)
      ensures more <==> remaining != []
    {
      more := |remaining| > 0;
    }

    /** `readStringUntil(terminator)`: reads characters one at a time until
        the terminator (consumed, not returned) or the end of the file. */
    method ReadStringUntil(terminator: char) returns (text: seq<char>)
      modifies this
      ensures (text, remaining) == SplitAt(old(remaining), terminator)
    {
      text := [];
      while remaining != [] && remaining[0] != terminator
        invariant text + remaining == old(remaining)
        invariant terminator !in text
        decreases |remaining|
      {
        text := text + [remaining[0]];
        remaining := remaining[1..];
      }
      if remaining != [] {
        SplitAtFirst(text, terminator, remaining[1..]);
        assert old(remaining) == text + [terminator] + remaining[1..];
        remaining := remaining[1..];
      } else {
        assert text == old(remaining);
        assert terminator !in old(remaining);
        assert SplitAt(old(remaining), terminator) == (text, []);
      }
      assert (text, remaining) == SplitAt(old(remaining), terminator);
    }
  }

  /** The `key:value` records of a configuration text, in file order: each
      key is the text up to the next ':' and each value the text up to the
      next newline, both cut at an embedded NUL and right-trimmed (leading
      whitespace is kept). */
  function Records(input: seq<char>): (records: seq<(string, string)>)
    ensures |records| <= |input|
    ensures forall i :: 0 <= i < |records| ==> Storable(records[i])
    decreases |input|
  {
    if input == [] then []
    else
      var (keyText, afterKey) := SplitAt(input, ':');
      var (valueText, rest) := SplitAt(afterKey, '\n');
      StorableRecord(keyText, valueText);
      [(RTrimmed(CString(keyText)), RTrimmed(CString(valueText)))] + Records(rest)
  }

  /** A key cut before ':' and a value cut before a newline, each cut at a
      NUL and right-trimmed, form a record that can be written back. */
  lemma StorableRecord(keyText: string, valueText: string)
    requires ':' !in keyText && '\n' !in valueText
    ensures Storable((RTrimmed(CString(keyText)), RTrimmed(CString(valueText))))
  {
    var key := CString(keyText);
    var value := CString(valueText);
    assert ':' !in key by {
      forall i | 0 <= i < |key| ensures key[i] != ':' { assert key[i] == keyText[i]; }
    }
    assert '\n' !in value by {
      forall i | 0 <= i < |value| ensures value[i] != '\n' { assert value[i] == valueText[i]; }
    }
    NotInPrefix(RTrimmed(key), key);
    NotInPrefix(RTrimmed(value), value);
    RTrimIdempotent(key);
    RTrimIdempotent(value);
  }

  /** A prefix holds no character its whole string does not. */
  lemma NotInPrefix(prefix: string, s: string)
    requires prefix <= s
    ensures forall c :: c !in s ==> c !in prefix
  {
    forall c | c !in s ensures c !in prefix {
      forall i | 0 <= i < |prefix| ensures prefix[i] != c { assert prefix[i] == s[i]; }
    }
  }

  /** `kv_pairs[k] = v` for each record in turn. */
  function Insert(kvPairs: Config, records: seq<(string, string)>): (result: Config)
    ensures kvPairs.Keys <= result.Keys
    ensures forall i :: 0 <= i < |records| ==> records[i].0 in result
    decreases |records|
  {
    if records == [] then kvPairs
    else Insert(kvPairs[records[0].0 := records[0].1], records[1..])
  }

  /** The map `read_file_to_map` returns for a file's contents: its keys are
      exactly the keys of the file's records. */
  function ConfigMap(input: seq<char>): (config: Config)
    ensures config.Keys == set r | r in Records(input) :: r.0
  {
    InsertKeys(map[], Records(input));
    Insert(map[], Records(input))
  }

  /** `read_file_to_map`: reads records until the file is exhausted. Every
      round consumes at least one character, so the loop ends. */
  method ReadFileToMap(inFile: File) returns (kvPairs: Config)
    modifies inFile
    ensures kvPairs == ConfigMap(old(inFile.remaining))
    ensures inFile.remaining == []
  {
    kvPairs := map[];
    var more := inFile.Available();
    while more
      invariant more <==> inFile.remaining != []
      invariant Insert(kvPairs, Records(inFile.remaining)) == ConfigMap(old(inFile.remaining))
      decreases |inFile.remaining|
    {
      ghost var records := Records(inFile.remaining);
      var keyText := inFile.ReadStringUntil(':');
      var k := RTrimCopy(CString(keyText));
      var valueText := inFile.ReadStringUntil('\n');
      var v := RTrimCopy(CString(valueText));
      assert records == [(k, v)] + Records(inFile.remaining);
      assert records[1..] == Records(inFile.remaining);
      kvPairs := kvPairs[k := v];
      more := inFile.Available();
    }
  }

  /** Every key of the result comes from the starting map or from a record. */
  lemma {:induction false} InsertKeys(kvPairs: Config, records: seq<(string, string)>)
    ensures Insert(kvPairs, records).Keys == kvPairs.Keys + set r | r in records :: r.0
    decreases |records|
  {
    if records != [] {
      InsertKeys(kvPairs[records[0].0 := records[0].1], records[1..]);
      assert records == [records[0]] + records[1..];
      assert (set r | r in records :: r.0)
          == {records[0].0} + set r | r in records[1..] :: r.0;
    }
  }

  /** A later duplicate key overwrites an earlier one: the value kept for a
      key is that of its last record. */
  lemma {:induction false} InsertLastWins(kvPairs: Config, records: seq<(string, string)>, i: nat)
    requires i < |records|
    requires forall j :: i < j < |records| ==> records[j].0 != records[i].0
    ensures records[i].0 in Insert(kvPairs, records)
    ensures Insert(kvPairs, records)[records[i].0] == records[i].1
    decreases |records|
  {
    if i == 0 {
      InsertUntouched(kvPairs[records[0].0 := records[0].1], records[1..], records[0].0);
    } else {
      InsertLastWins(kvPairs[records[0].0 := records[0].1], records[1..], i - 1);
    }
  }

  /** A key no record mentions keeps its starting value. */
  lemma {:induction false} InsertUntouched(kvPairs: Config, records: seq<(string, string)>, key: string)
    requires key in kvPairs
    requires forall j :: 0 <= j < |records| ==> records[j].0 != key
    ensures key in Insert(kvPairs, records) && Insert(kvPairs, records)[key] == kvPairs[key]
    decreases |records|
  {
    if records != [] {
      InsertUntouched(kvPairs[records[0].0 := records[0].1], records[1..], key);
    }
  }

  /** The text of a configuration file holding `records`, one `key:value` per line. */
  function Serialize(records: seq<(string, string)>): (text: seq<char>)
    decreases |records|
  {
    if records == [] then []
    else records[0].0 + [':'] + records[0].1 + ['\n'] + Serialize(records[1..])
  }

  /** A record that survives a write and a read: no separator or NUL inside,
      and no trailing whitespace (leading whitespace is allowed). */
  predicate Storable(record: (string, string))
  {
    && ':' !in record.0 && '\0' !in record.0 && RTrimmed(record.0) == record.0
    && '\n' !in record.1 && '\0' !in record.1 && RTrimmed(record.1) == record.1
  }

  /** The reader recovers exactly the records written, in order. */
  lemma {:induction false} RecordsSerialize(records: seq<(string, string)>)
    requires forall i :: 0 <= i < |records| ==> Storable(records[i])
    ensures Records(Serialize(records)) == records
    decreases |records|
  {
    if records != [] {
      var (k, v) := records[0];
      var rest := Serialize(records[1..]);
      var text := Serialize(records);
      assert text == k + [':'] + (v + ['\n'] + rest);
      SplitAtFirst(k, ':', v + ['\n'] + rest);
      SplitAtFirst(v, '\n', rest);
      CStringOfText(k, []);
      CStringOfText(v, []);
      RecordsSerialize(records[1..]);
    }
  }

  lemma {:induction false} SplitAtFirst(before: seq<char>, terminator: char, after: seq<char>)
    requires terminator !in before
    ensures SplitAt(before + [terminator] + after, terminator) == (before, after)
  {
    var input := before + [terminator] + after;
    if before != [] {
      assert input[1..] == before[1..] + [terminator] + after;
      SplitAtFirst(before[1..], terminator, after);
      assert [before[0]] + before[1..] == before;
    }
  }

  /** The map read from a written file holds, for every key, the value of its
      last line: duplicates overwrite, leading whitespace of values survives. */
  lemma ConfigMapOfSerialized(records: seq<(string, string)>, i: nat)
    requires forall j :: 0 <= j < |records| ==> Storable(records[j])
    requires i < |records|
    requires forall j :: i < j < |records| ==> records[j].0 != records[i].0
    ensures var config := ConfigMap(Serialize(records));
      records[i].0 in config && config[records[i].0] == records[i].1
  {
    RecordsSerialize(records);
    InsertLastWins(map[], records, i);
  }
}
