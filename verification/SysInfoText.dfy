/** The SysInfo file: one `key: value` line for each field. */
module SysInfoText {
  import opened Text

  type Fields = map<string, string>

  /** `fields.get(key, "")` */
  function Raw(fields: Fields, key: string): string {
    if key in fields then fields[key] else ""
  }

  function Line(key: string, value: string): string {
    if value == "" then "" else key + ": " + value + "\n"
  }

  function LinesOf(fields: Fields, order: seq<string>): string {
    if order == [] then "" else Line(order[0], Raw(fields, order[0])) + LinesOf(fields, order[1..])
  }

  /** `_write_sysinfo_file`: fields without a value are left out. */
  function Print(fields: Fields, order: seq<string>): string {
    var text := LinesOf(fields, order);
    if text == "" then "\n" else text
  }

  /** Where `c` first occurs, or the length. */
  function Find(s: string, c: char): (i: nat)
    ensures i <= |s| && (i < |s| ==> s[i] == c) && forall j | 0 <= j < i :: s[j] != c
  {
    if s == "" || s[0] == c then 0 else 1 + Find(s[1..], c)
  }

  function AddLine(fields: Fields, line: string): Fields {
    var colon := Find(line, ':');
    if colon == |line| then fields else fields[Strip(line[..colon]) := Strip(line[colon + 1..])]
  }

  /** `_read_sysinfo_raw`: later lines win. */
  function ParseInto(fields: Fields, text: string): Fields
    decreases |text|
  {
    if text == "" then fields
    else
      var end := Find(text, '\n');
      if end == |text| then AddLine(fields, text)
      else ParseInto(AddLine(fields, text[..end]), text[end + 1..])
  }

  function Parse(text: string): Fields {
    ParseInto(map[], text)
  }

  method ReadSysInfo(text: string) returns (fields: Fields)
    ensures fields == Parse(text)
  {
    hide AddLine;
    fields := map[];
    var rest := text;
    while rest != ""
      invariant ParseInto(fields, rest) == Parse(text)
      decreases |rest|
    {
      var end := Find(rest, '\n');
      fields := AddLine(fields, rest[..end]);
      if end == |rest| {
        assert rest[..end] == rest;
        return;
      }
      rest := rest[end + 1..];
    }
  }

  method WriteSysInfo(fields: Fields, order: seq<string>) returns (text: string)
    ensures text == Print(fields, order)
  {
    hide Line;
    text := "";
    for i := 0 to |order|
      invariant text + LinesOf(fields, order[i..]) == LinesOf(fields, order)
    {
      assert order[i..][1..] == order[i + 1..];
      text := text + Line(order[i], Raw(fields, order[i]));
    }
    if text == "" {
      text := "\n";
    }
  }

  /** Stripping twice is stripping once. */
  lemma StripOnce(s: string)
    ensures Strip(Strip(s)) == Strip(s)
  {
    var left := StripLeft(s);
    var r := StripRight(left);
    if r != "" {
      assert r[0] == left[0];
      assert StripLeft(r) == r;
    }
  }

  lemma StripSpace(s: string)
    ensures Strip(" " + s) == Strip(s)
  {
    assert (" " + s)[1..] == s;
  }

  /** A key that a line can carry. */
  predicate PlainKey(key: string) {
    ':' !in key && '\n' !in key && Strip(key) == key
  }

  lemma FindIs(s: string, c: char, i: nat)
    requires i < |s| && s[i] == c && forall j | 0 <= j < i :: s[j] != c
    ensures Find(s, c) == i
  {
  }

  /** The first `c` is where the text before it, which has none, ends. */
  lemma FoundAfter(before: string, c: char, rest: string)
    requires c !in before
    ensures Find(before + [c] + rest, c) == |before|
    ensures (before + [c] + rest)[..|before|] == before && (before + [c] + rest)[|before| + 1..] == rest
  {
    var s := before + [c] + rest;
    assert forall j | 0 <= j < |before| :: s[j] == before[j] && before[j] in before;
    FindIs(s, c, |before|);
  }

  lemma LineRead(fields: Fields, key: string, value: string)
    requires PlainKey(key) && '\n' !in value
    ensures AddLine(fields, key + ": " + value) == fields[key := Strip(value)]
    ensures '\n' !in key + ": " + value
  {
    hide Strip;
    hide Find;
    var rest := " " + value;
    assert key + ": " + value == key + [':'] + rest;
    FoundAfter(key, ':', rest);
    StripSpace(value);
  }

  lemma LineParsed(fields: Fields, key: string, value: string, rest: string)
    requires PlainKey(key) && '\n' !in value && value != ""
    ensures ParseInto(fields, Line(key, value) + rest) == ParseInto(fields[key := Strip(value)], rest)
  {
    hide Strip;
    hide Find;
    hide PlainKey;
    hide AddLine;
    var line := key + ": " + value;
    LineRead(fields, key, value);
    FoundAfter(line, '\n', rest);
    assert Line(key, value) + rest == line + ['\n'] + rest;
  }

  /** Reading back a written field gives its value without the spaces around it. */
  lemma {:induction false} LinesParsed(before: Fields, fields: Fields, order: seq<string>, key: string)
    requires forall k | k in order :: PlainKey(k) && '\n' !in Raw(fields, k)
    ensures Raw(ParseInto(before, LinesOf(fields, order)), key)
            == if key in order && Raw(fields, key) != "" then Strip(Raw(fields, key)) else Raw(before, key)
    decreases |order|
  {
    hide Strip;
    hide PlainKey;
    if order != [] {
      var k, rest := order[0], order[1..];
      var value := Raw(fields, k);
      assert order == [k] + rest;
      if value == "" {
        assert Line(k, value) + LinesOf(fields, rest) == LinesOf(fields, rest);
        LinesParsed(before, fields, rest, key);
      } else {
        LineParsed(before, k, value, LinesOf(fields, rest));
        LinesParsed(before[k := Strip(value)], fields, rest, key);
      }
    }
  }

  /** What is written is what is read back, up to the spaces around each value. */
  lemma FileRoundTrip(fields: Fields, order: seq<string>, key: string)
    requires forall k | k in fields :: PlainKey(k) && '\n' !in fields[k]
    requires forall k :: k in order <==> k in fields
    ensures Raw(Parse(Print(fields, order)), key) == Strip(Raw(fields, key))
  {
    hide PlainKey;
    LinesParsed(map[], fields, order, key);
    if LinesOf(fields, order) == "" {
      assert "\n"[..0] == "" && "\n"[1..] == "";
      assert Parse("\n") == map[];
    }
    assert Strip("") == "";
  }

  /** Fields that can be written one to a line and read back as they are. */
  ghost predicate Plain(fields: Fields) {
    forall key | key in fields :: PlainKey(key) && '\n' !in fields[key] && Strip(fields[key]) == fields[key]
  }

  lemma {:induction false} StripLeftChars(s: string, c: char)
    requires c !in s
    ensures c !in StripLeft(s)
  {
    SuffixFacts(StripLeft(s), s, c);
  }

  lemma StripChars(s: string, c: char)
    requires c !in s
    ensures c !in Strip(s)
  {
    StripLeftChars(s, c);
    var left := StripLeft(s);
    assert forall i | 0 <= i < |StripRight(left)| :: StripRight(left)[i] == left[i] && left[i] in left;
  }

  lemma AddLinePlain(fields: Fields, line: string)
    requires Plain(fields) && '\n' !in line
    ensures Plain(AddLine(fields, line))
  {
    hide Strip;
    var colon := Find(line, ':');
    if colon < |line| {
      var key, value := line[..colon], line[colon + 1..];
      assert ':' !in key;
      StripChars(key, ':');
      StripChars(key, '\n');
      StripChars(value, '\n');
      StripOnce(key);
      StripOnce(value);
    }
  }

  /** Whatever a file holds, the fields read from it can be written and read back unchanged. */
  lemma {:induction false} ParsedPlain(fields: Fields, text: string)
    requires Plain(fields)
    ensures Plain(ParseInto(fields, text))
    decreases |text|
  {
    hide Plain;
    hide AddLine;
    if text != "" {
      var end := Find(text, '\n');
      assert '\n' !in text[..end];
      AddLinePlain(fields, text[..end]);
      if end < |text| {
        ParsedPlain(AddLine(fields, text[..end]), text[end + 1..]);
      } else {
        assert text[..end] == text;
      }
    }
  }
}
