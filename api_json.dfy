// The field readers of the API's minimal JSON reader: a key is found by
// plain substring search, and its value is read as a string, an integer or
// a boolean. A C string is modelled as the sequence of its characters
// before the terminating NUL, so the end of the sequence plays the NUL.
// Each Dafny `char` stands for one C byte (buffer sizes, the 64-byte key
// pattern and the substring search all count bytes), and the text holds no
// embedded NUL.

module ApiJson {
  import opened Wrappers

  /** isspace in the C locale. */
  predicate IsSpace(c: char)
  {
    c == ' ' || c == '\t' || c == '\n' || c == '\U{0B}' || c == '\U{0C}' || c == '\r'
  }

  predicate IsDigit(c: char)
  {
    '0' <= c <= '9'
  }

  // ---------------------------------------------------------------------
  // Whitespace and the key search

  /** The first position at or after `from` that is not whitespace: the
      whole maximal run of whitespace is skipped and nothing more. */
  function SkipSpaces(s: string, from: nat): (pos: nat)
    requires from <= |s|
    ensures from <= pos <= |s|
    decreases |s| - from
  {
    if from == |s| || !IsSpace(s[from]) then from else SkipSpaces(s, from + 1)
  }

  lemma {:induction false} SkipSpacesSkipsRun(s: string, from: nat)
    requires from <= |s|
    ensures forall k :: from <= k < SkipSpaces(s, from) ==> IsSpace(s[k])
    ensures SkipSpaces(s, from) == |s| || !IsSpace(s[SkipSpaces(s, from)])
    decreases |s| - from
  {
    if from < |s| && IsSpace(s[from]) {
      SkipSpacesSkipsRun(s, from + 1);
    }
  }

  /** skip_whitespace: advances over whitespace, stopping at the end. */
  method SkipWhitespace(s: string, from: nat) returns (pos: nat)
    requires from <= |s|
    ensures pos == SkipSpaces(s, from)
  {
    pos := from;
    while pos < |s| && IsSpace(s[pos])
      invariant from <= pos <= |s|
      invariant SkipSpaces(s, pos) == SkipSpaces(s, from)
    {
      pos := pos + 1;
    }
  }

  predicate MatchesAt(text: string, pat: string, k: int)
  {
    0 <= k && k + |pat| <= |text| && text[k..k + |pat|] == pat
  }

  /** strstr from position `from`: the first occurrence of pat, or -1. */
  function Find(text: string, pat: string, from: nat): (r: int)
    ensures r == -1 || (from <= r && MatchesAt(text, pat, r))
    decreases |text| - from
  {
    if from + |pat| > |text| then -1
    else if text[from..from + |pat|] == pat then from
    else Find(text, pat, from + 1)
  }

  /** The occurrence found is the first one, and -1 means there is none. */
  lemma {:induction false} FindFirst(text: string, pat: string, from: nat)
    ensures forall k :: from <= k && (Find(text, pat, from) == -1 || k < Find(text, pat, from)) ==>
      !MatchesAt(text, pat, k)
    decreases |text| - from
  {
    if from + |pat| <= |text| && text[from..from + |pat|] != pat {
      FindFirst(text, pat, from + 1);
    }
  }

  /** The quoted key, as formatted into the extractors' 64-byte buffer
      (longer keys are cut to 63 characters). */
  function Pattern(key: string): (pat: string)
    ensures 0 < |pat| <= 63 && pat[0] == '"'
  {
    var quoted := ['"'] + key + ['"'];
    if |quoted| <= 63 then quoted else quoted[..63]
  }

  /** Where the value of `key` starts: after the first occurrence of the
      quoted key, optional whitespace, a colon and optional whitespace. None
      when the key is absent or no colon follows it. */
  function ValueStart(json: string, key: string): (r: Option<nat>)
    ensures Find(json, Pattern(key), 0) == -1 ==> r.None?
    ensures r.Some? ==> Find(json, Pattern(key), 0) >= 0 && r.value <= |json|
  {
    var pat := Pattern(key);
    var at := Find(json, pat, 0);
    if at == -1 then None
    else
      var afterKey := SkipSpaces(json, at + |pat|);
      if afterKey == |json| || json[afterKey] != ':' then None
      else Some(SkipSpaces(json, afterKey + 1))
  }

  /** The value does not start with whitespace. */
  lemma ValueStartSkipsSpace(json: string, key: string)
    ensures var r := ValueStart(json, key);
      r.Some? ==> r.value == |json| || !IsSpace(json[r.value])
  {
    var at := Find(json, Pattern(key), 0);
    if at != -1 {
      var afterKey := SkipSpaces(json, at + |Pattern(key)|);
      if afterKey < |json| && json[afterKey] == ':' {
        SkipSpacesSkipsRun(json, afterKey + 1);
      }
    }
  }

  /** Between the first occurrence of the quoted key and the value there is
      exactly one colon and otherwise only whitespace. */
  lemma ValueStartAfterColon(json: string, key: string)
    ensures var r := ValueStart(json, key);
      r.Some? ==>
        var keyEnd := Find(json, Pattern(key), 0) + |Pattern(key)|;
        exists c :: keyEnd <= c < r.value && json[c] == ':' &&
          forall k :: keyEnd <= k < r.value && k != c ==> IsSpace(json[k])
  {
    var at := Find(json, Pattern(key), 0);
    if at != -1 {
      var keyEnd := at + |Pattern(key)|;
      var afterKey := SkipSpaces(json, keyEnd);
      if afterKey < |json| && json[afterKey] == ':' {
        var end := SkipSpaces(json, afterKey + 1);
        assert ValueStart(json, key) == Some(end);
        SkipSpacesSkipsRun(json, keyEnd);
        SkipSpacesSkipsRun(json, afterKey + 1);
        assert keyEnd <= afterKey < end && json[afterKey] == ':';
        assert forall k :: keyEnd <= k < end && k != afterKey ==> IsSpace(json[k]);
      }
    }
  }

  /** The search common to the three extractors. */
  method LocateValue(json: string, key: string) returns (found: bool, pos: nat)
    ensures found == ValueStart(json, key).Some?
    ensures found ==> pos == ValueStart(json, key).value && pos <= |json|
  {
    var pat := Pattern(key);
    var at := Find(json, pat, 0);
    if at == -1 {
      return false, 0;
    }
    pos := SkipWhitespace(json, at + |pat|);
    if pos == |json| || json[pos] != ':' {
      return false, 0;
    }
    pos := SkipWhitespace(json, pos + 1);
    found := true;
  }

  // ---------------------------------------------------------------------
  // Strings

  /** The characters copied from pos: up to the next unescaped quote or the
      end, a backslash dropped before the character it escapes, at most
      room characters. */
  function Unescape(s: string, pos: nat, room: nat): (v: string)
    requires pos <= |s|
    ensures |v| <= room
    decreases |s| - pos
  {
    if pos == |s| || s[pos] == '"' || room == 0 then []
    else if s[pos] == '\\' && pos + 1 < |s| then [s[pos + 1]] + Unescape(s, pos + 2, room - 1)
    else [s[pos]] + Unescape(s, pos + 1, room - 1)
  }

  /** The value extract_string reads for key with a buffer of `size` bytes,
      one character per byte. */
  function StringField(json: string, key: string, size: nat): (r: Option<string>)
    requires size >= 1
    ensures r.Some? ==> |r.value| <= size - 1
  {
    match ValueStart(json, key)
    case None => None
    case Some(p) =>
      if p == |json| || json[p] != '"' then None
      else Some(Unescape(json, p + 1, size - 1))
  }

  /** extract_string: the value of key into a buffer of valueSize bytes,
      which keeps what it held when the key, the colon or the opening quote
      is missing. */
  method ExtractString(json: string, key: string, valueSize: nat, value0: string)
    returns (ok: bool, value: string)
    requires valueSize >= 1
    ensures ok == StringField(json, key, valueSize).Some?
    ensures value == if ok then StringField(json, key, valueSize).value else value0
  {
    var found, pos := LocateValue(json, key);
    if !found || pos == |json| || json[pos] != '"' {
      return false, value0;
    }
    value := CopyUnescaped(json, pos + 1, valueSize - 1);
    ok := true;
  }

  /** The copy loop of extract_string: from start up to the closing quote or
      the end of the text, at most room characters, dropping the backslash
      of each escape. */
  method CopyUnescaped(json: string, start: nat, room: nat) returns (value: string)
    requires start <= |json|
    ensures value == Unescape(json, start, room)
  {
    var pos := start;
    value := [];
    while pos < |json| && json[pos] != '"' && |value| < room
      invariant start <= pos <= |json| && |value| <= room
      invariant value + Unescape(json, pos, room - |value|) == Unescape(json, start, room)
      decreases |json| - pos
    {
      ghost var before, at, left := value, pos, room - |value|;
      ghost var q := if json[pos] == '\\' && pos + 1 < |json| then pos + 1 else pos;
      assert Unescape(json, at, left) == [json[q]] + Unescape(json, q + 1, left - 1);
      if json[pos] == '\\' && pos + 1 < |json| {
        pos := pos + 1;
      }
      value := value + [json[pos]];
      pos := pos + 1;
      AppendAssociates(before, [json[q]], Unescape(json, pos, left - 1));
    }
    assert Unescape(json, pos, room - |value|) == [];
  }

  lemma AppendAssociates(a: string, b: string, c: string)
    ensures a + (b + c) == (a + b) + c
  {
  }

  /** How a string is written inside a JSON string: a backslash before each
      quote and backslash. */
  function Escape(v: string): (e: string)
    ensures |e| >= |v|
  {
    if |v| == 0 then []
    else (if v[0] == '"' || v[0] == '\\' then ['\\', v[0]] else [v[0]]) + Escape(v[1..])
  }

  /** The first `room` characters of v. */
  function Cut(v: string, room: nat): (t: string)
  {
    if |v| == 0 || room == 0 then [] else [v[0]] + Cut(v[1..], room - 1)
  }

  lemma {:induction false} CutIsPrefix(v: string, room: nat)
    ensures Cut(v, room) == v[..if |v| <= room then |v| else room]
  {
    if |v| > 0 && room > 0 {
      CutIsPrefix(v[1..], room - 1);
    }
  }

  /** The length of the escape of v's first character. */
  function HeadLength(v: string): (n: nat)
    requires |v| > 0
  {
    if v[0] == '"' || v[0] == '\\' then 2 else 1
  }

  /** Reading an escaped string takes its first character back in one step
      and leaves the escape of the rest to read. */
  lemma UnescapeHead(s: string, pos: nat, v: string, room: nat)
    requires |v| > 0 && room > 0
    requires pos + |Escape(v)| <= |s| && s[pos..pos + |Escape(v)|] == Escape(v)
    ensures |Escape(v)| == HeadLength(v) + |Escape(v[1..])|
    ensures Unescape(s, pos, room) == [v[0]] + Unescape(s, pos + HeadLength(v), room - 1)
    ensures s[pos + HeadLength(v)..pos + |Escape(v)|] == Escape(v[1..])
  {
    var c := v[0];
    var e := Escape(v);
    var head := if c == '"' || c == '\\' then ['\\', c] else [c];
    assert e == head + Escape(v[1..]);
    IndexOfSlice(s, pos, e, 0);
    if |head| == 2 {
      IndexOfSlice(s, pos, e, 1);
    }
    SliceOfSlice(s, pos, e, |head|, |e|);
    assert e[|head|..|e|] == Escape(v[1..]);
  }

  /** An escaped string followed by a closing quote, or by the end of the
      text, is read back as the string, cut to the room left. */
  lemma {:induction false} UnescapeEscaped(s: string, pos: nat, v: string, room: nat)
    requires pos + |Escape(v)| <= |s| && s[pos..pos + |Escape(v)|] == Escape(v)
    requires pos + |Escape(v)| == |s| || s[pos + |Escape(v)|] == '"'
    ensures Unescape(s, pos, room) == Cut(v, room)
    decreases |v|
  {
    if |v| == 0 {
      assert Escape(v) == [];
      assert Unescape(s, pos, room) == [];
    } else if room > 0 {
      UnescapeHead(s, pos, v, room);
      var next := pos + HeadLength(v);
      assert next + |Escape(v[1..])| == pos + |Escape(v)|;
      UnescapeEscaped(s, next, v[1..], room - 1);
      assert Cut(v, room) == [v[0]] + Cut(v[1..], room - 1);
    }
  }

  /** The start of a request holding key as its first field: `{"key": `. */
  function Opening(key: string): (o: string)
    ensures |o| == |Pattern(key)| + 3
  {
    "{" + Pattern(key) + ": "
  }

  /** In a text that starts with `{"key": ` and goes on with a character
      other than whitespace, the value of key starts at that character. */
  lemma ValueAfterKey(json: string, key: string)
    requires |Opening(key)| < |json| && json[..|Opening(key)|] == Opening(key)
    requires !IsSpace(json[|Opening(key)|])
    ensures ValueStart(json, key) == Some(|Opening(key)|)
  {
    var pat := Pattern(key);
    var o := Opening(key);
    var lead := "{" + pat;
    Parts(lead, ": ");
    Parts("{", pat);
    SliceOfSlice(o, 0, lead, 1, |lead|);
    SliceOfSlice(json, 0, o, 1, |lead|);
    assert json[1..1 + |pat|] == pat;
    IndexOfSlice(json, 0, o, 0);
    IndexOfSlice(json, 0, o, |lead|);
    IndexOfSlice(json, 0, o, |lead| + 1);
    assert json[0..|pat|][0] == '{';
    assert Find(json, pat, 0) == 1;
    assert SkipSpaces(json, 1 + |pat|) == 1 + |pat|;
    assert SkipSpaces(json, 3 + |pat|) == 3 + |pat|;
  }

  /** Where the two parts of a concatenation sit in it. */
  lemma Parts(a: string, b: string)
    ensures (a + b)[..|a|] == a && (a + b)[|a|..] == b
  {
  }

  /** A slice of a slice is a slice. */
  lemma SliceOfSlice(s: string, i: nat, w: string, a: nat, b: nat)
    requires i + |w| <= |s| && s[i..i + |w|] == w && a <= b <= |w|
    ensures s[i + a..i + b] == w[a..b]
  {
    forall k | 0 <= k < b - a
      ensures s[i + a..i + b][k] == w[a..b][k]
    {
      IndexOfSlice(s, i, w, a + k);
    }
  }

  /** An element of a slice is an element of the text. */
  lemma IndexOfSlice(s: string, i: nat, w: string, k: nat)
    requires i + |w| <= |s| && s[i..i + |w|] == w && k < |w|
    ensures s[i + k] == w[k]
  {
    assert s[i..i + |w|][k] == s[i + k];
  }

  /** A quoted string is read back from just after its opening quote,
      cut to the room given. */
  lemma QuotedAt(s: string, p: nat, v: string, room: nat)
    requires p + |Quoted(v)| <= |s| && s[p..p + |Quoted(v)|] == Quoted(v)
    ensures Unescape(s, p + 1, room) == Cut(v, room)
  {
    var q := Quoted(v);
    var e := Escape(v);
    SliceOfSlice(s, p, q, 1, 1 + |e|);
    assert q[1..1 + |e|] == e;
    IndexOfSlice(s, p, q, 1 + |e|);
    UnescapeEscaped(s, p + 1, v, room);
  }

  /** A text that starts with `{"key": ` and a quoted string gives that
      string back, cut to the buffer. */
  lemma StringFieldAt(json: string, key: string, v: string, size: nat)
    requires size >= 1
    requires |Opening(key)| + |Quoted(v)| <= |json|
    requires json[..|Opening(key)|] == Opening(key)
    requires json[|Opening(key)|..|Opening(key)| + |Quoted(v)|] == Quoted(v)
    ensures StringField(json, key, size) == Some(Cut(v, size - 1))
  {
    var o := |Opening(key)|;
    IndexOfSlice(json, o, Quoted(v), 0);
    ValueAfterKey(json, key);
    QuotedAt(json, o, v, size - 1);
  }

  /** A field written as `{"key": "<escaped v>"` followed by anything is
      read back as v, cut to the buffer. */
  lemma StringFieldRoundTrip(key: string, v: string, rest: string, size: nat)
    requires size >= 1
    ensures StringField(Opening(key) + Quoted(v) + rest, key, size) == Some(Cut(v, size - 1))
  {
    var o := Opening(key);
    Parts(o + Quoted(v), rest);
    Parts(o, Quoted(v));
    StringFieldAt(o + Quoted(v) + rest, key, v, size);
  }

  /** A string as written into a JSON text: escaped, between quotes. */
  function Quoted(v: string): (q: string)
    ensures |q| == |Escape(v)| + 2 && q[0] == '"' && q[|q| - 1] == '"'
  {
    "\"" + Escape(v) + "\""
  }

  const LongMin := -0x8000_0000_0000_0000
  const LongMax := 0x7FFF_FFFF_FFFF_FFFF

  predicate AllDigits(d: string)
  {
    forall k :: 0 <= k < |d| ==> IsDigit(d[k])
  }

  /** The end of the run of digits starting at p. */
  function DigitRun(s: string, p: nat): (e: nat)
    requires p <= |s|
    ensures p <= e <= |s|
    decreases |s| - p
  {
    if p == |s| || !IsDigit(s[p]) then p else DigitRun(s, p + 1)
  }

  lemma {:induction false} DigitRunMaximal(s: string, p: nat)
    requires p <= |s|
    ensures forall k :: p <= k < DigitRun(s, p) ==> IsDigit(s[k])
    ensures DigitRun(s, p) == |s| || !IsDigit(s[DigitRun(s, p)])
    decreases |s| - p
  {
    if p < |s| && IsDigit(s[p]) {
      DigitRunMaximal(s, p + 1);
    }
  }

  /** The value of a string of decimal digits. */
  function DigitsValue(d: string): (n: int)
  {
    if |d| == 0 then 0 else DigitsValue(d[..|d| - 1]) * 10 + (d[|d| - 1] as int - '0' as int)
  }

  function ClampLong(x: int): (y: int)
    ensures LongMin <= y <= LongMax
    ensures LongMin <= x <= LongMax ==> y == x
  {
    if x < LongMin then LongMin else if x > LongMax then LongMax else x
  }

  /** The conversion of a long to a 32-bit int: the value modulo 2^32, read
      as two's complement. */
  function ToInt32(x: int): (y: int)
    ensures -0x8000_0000 <= y < 0x8000_0000
    ensures (y - x) % 0x1_0000_0000 == 0
    ensures -0x8000_0000 <= x < 0x8000_0000 ==> y == x
  {
    var m := x % 0x1_0000_0000;
    if m >= 0x8000_0000 then m - 0x1_0000_0000 else m
  }

  /** The digits strtol reads from d on: None when there is none, otherwise
      their value, negated for a minus sign. */
  function ReadDigits(s: string, d: nat, negative: bool): (r: Option<int>)
    requires d <= |s|
    ensures r.None? <==> d == |s| || !IsDigit(s[d])
  {
    var e := DigitRun(s, d);
    if e == d then None
    else
      var magnitude := DigitsValue(s[d..e]);
      Some(if negative then -magnitude else magnitude)
  }

  /** The number strtol reads in base 10 at p: optional whitespace, an
      optional sign and a run of digits; None when no digit follows (strtol
      then sets end to p). The value is exact: strtol returns it clamped to
      the range of long. */
  function ParseLong(s: string, p: nat): (r: Option<int>)
    requires p <= |s|
  {
    var q := SkipSpaces(s, p);
    if q < |s| && s[q] == '-' then ReadDigits(s, q + 1, true)
    else if q < |s| && s[q] == '+' then ReadDigits(s, q + 1, false)
    else ReadDigits(s, q, false)
  }

  /** The value extract_int reads for key. */
  function IntField(json: string, key: string): (r: Option<int>)
    ensures r.Some? ==> -0x8000_0000 <= r.value < 0x8000_0000
  {
    match ValueStart(json, key)
    case None => None
    case Some(p) =>
      match ParseLong(json, p)
      case None => None
      case Some(v) => Some(ToInt32(ClampLong(v)))
  }

  /** extract_int: fails, keeping the old value, when the key or the colon
      is missing or no digits follow. */
  method ExtractInt(json: string, key: string, value0: int) returns (ok: bool, value: int)
    ensures ok == IntField(json, key).Some?
    ensures value == if ok then IntField(json, key).value else value0
  {
    var found, pos := LocateValue(json, key);
    if !found {
      return false, value0;
    }
    var parsed := ParseLong(json, pos);
    if parsed.None? {
      return false, value0;
    }
    return true, ToInt32(ClampLong(parsed.value));
  }

  /** The decimal digits of n, as "%d" prints a non-negative number. */
  function Decimal(n: nat): (d: string)
    ensures |d| > 0 && AllDigits(d)
  {
    if n < 10 then [('0' as int + n) as char]
    else Decimal(n / 10) + [('0' as int + n % 10) as char]
  }

  /** Reading the digits back gives the number. */
  lemma {:induction false} DecimalValue(n: nat)
    ensures DigitsValue(Decimal(n)) == n
  {
    if n >= 10 {
      DecimalValue(n / 10);
      assert Decimal(n)[..|Decimal(n)| - 1] == Decimal(n / 10);
    }
  }

  /** A run of digits that is not followed by a digit ends where it ends. */
  lemma {:induction false} DigitRunEnds(s: string, p: nat, digits: string)
    requires p + |digits| <= |s| && s[p..p + |digits|] == digits
    requires AllDigits(digits)
    requires p + |digits| == |s| || !IsDigit(s[p + |digits|])
    ensures DigitRun(s, p) == p + |digits|
    decreases |digits|
  {
    if |digits| > 0 {
      assert s[p] == digits[0];
      assert s[p + 1..p + |digits|] == digits[1..];
      DigitRunEnds(s, p + 1, digits[1..]);
    }
  }

  /** n as "%d" prints it. */
  function Written(n: int): (w: string)
    ensures |w| > 0 && (n < 0 <==> w[0] == '-')
  {
    if n < 0 then "-" + Decimal(-n) else Decimal(n)
  }

  /** A maximal run of digits is read as its value. */
  lemma ReadDigitsRun(s: string, d: nat, negative: bool, digits: string)
    requires d + |digits| <= |s| && s[d..d + |digits|] == digits
    requires |digits| > 0 && AllDigits(digits)
    requires d + |digits| == |s| || !IsDigit(s[d + |digits|])
    ensures var m := DigitsValue(digits);
      ReadDigits(s, d, negative) == Some(if negative then -m else m)
  {
    DigitRunEnds(s, d, digits);
    var e := DigitRun(s, d);
    assert s[d..e] == digits;
  }

  /** strtol reads a number written by "%d" back, when no digit follows. */
  lemma NumberAt(s: string, p: nat, n: int)
    requires p + |Written(n)| <= |s| && s[p..p + |Written(n)|] == Written(n)
    requires p + |Written(n)| == |s| || !IsDigit(s[p + |Written(n)|])
    ensures ParseLong(s, p) == Some(n)
  {
    var w := Written(n);
    var digits := Decimal(if n < 0 then -n else n);
    var sign := if n < 0 then 1 else 0;
    assert w[sign..|w|] == digits && |w| == sign + |digits|;
    assert n >= 0 ==> IsDigit(w[0]);
    IndexOfSlice(s, p, w, 0);
    assert SkipSpaces(s, p) == p;
    assert ParseLong(s, p) == ReadDigits(s, p + sign, n < 0);
    SliceOfSlice(s, p, w, sign, |w|);
    ReadDigitsRun(s, p + sign, n < 0, digits);
    DecimalValue(if n < 0 then -n else n);
  }

  /** A text that starts with `{"key": ` and a number, not followed by a
      digit, gives that number back. */
  lemma IntFieldAt(json: string, key: string, n: int)
    requires -0x8000_0000 <= n < 0x8000_0000
    requires |Opening(key)| + |Written(n)| <= |json|
    requires json[..|Opening(key)|] == Opening(key)
    requires json[|Opening(key)|..|Opening(key)| + |Written(n)|] == Written(n)
    requires |Opening(key)| + |Written(n)| == |json| || !IsDigit(json[|Opening(key)| + |Written(n)|])
    ensures IntField(json, key) == Some(n)
  {
    var o := |Opening(key)|;
    IndexOfSlice(json, o, Written(n), 0);
    ValueAfterKey(json, key);
    NumberAt(json, o, n);
    IntFieldFrom(json, key, o, n);
  }

  /** A 32-bit number read where the value of key starts is the field. */
  lemma IntFieldFrom(json: string, key: string, p: nat, n: int)
    requires -0x8000_0000 <= n < 0x8000_0000
    requires ValueStart(json, key) == Some(p) && ParseLong(json, p) == Some(n)
    ensures IntField(json, key) == Some(n)
  {
    assert ClampLong(n) == n && ToInt32(n) == n;
  }

  /** A field written as `{"key": <n>` with n as "%d" prints it, followed by
      anything that does not continue the number, is read back as n. */
  lemma IntFieldRoundTrip(key: string, n: int, rest: string)
    requires -0x8000_0000 <= n < 0x8000_0000
    requires rest == [] || !IsDigit(rest[0])
    ensures IntField(Opening(key) + Written(n) + rest, key) == Some(n)
  {
    var o := Opening(key);
    Parts(o + Written(n), rest);
    Parts(o, Written(n));
    var json := o + Written(n) + rest;
    assert |o| + |Written(n)| < |json| ==> json[|o| + |Written(n)|] == rest[0];
    IntFieldAt(json, key, n);
  }

  function HasPrefixAt(s: string, p: nat, word: string): bool
    requires p <= |s|
  {
    p + |word| <= |s| && s[p..p + |word|] == word
  }

  /** The value extract_bool reads for key: only the words true and false. */
  function BoolField(json: string, key: string): (r: Option<bool>)
    ensures r.Some? ==> ValueStart(json, key).Some?
    ensures r == Some(true) ==> HasPrefixAt(json, ValueStart(json, key).value, "true")
    ensures r == Some(false) ==> HasPrefixAt(json, ValueStart(json, key).value, "false")
  {
    match ValueStart(json, key)
    case None => None
    case Some(p) =>
      if HasPrefixAt(json, p, "true") then Some(true)
      else if HasPrefixAt(json, p, "false") then Some(false)
      else None
  }

  /** extract_bool: fails, keeping the old value, unless the value starts
      with `true` or `false`. */
  method ExtractBool(json: string, key: string, value0: bool) returns (ok: bool, value: bool)
    ensures ok == BoolField(json, key).Some?
    ensures value == if ok then BoolField(json, key).value else value0
  {
    var found, pos := LocateValue(json, key);
    if !found {
      return false, value0;
    }
    if HasPrefixAt(json, pos, "true") {
      return true, true;
    } else if HasPrefixAt(json, pos, "false") {
      return true, false;
    }
    return false, value0;
  }

  /** A field written as `{"key": true` or `{"key": false`, followed by
      anything, is read back. */
  lemma BoolFieldRoundTrip(key: string, b: bool, rest: string)
    ensures BoolField(Opening(key) + (if b then "true" else "false") + rest, key) == Some(b)
  {
    var o := Opening(key);
    var word := if b then "true" else "false";
    Parts(o + word, rest);
    Parts(o, word);
    BoolFieldAt(o + word + rest, key, b);
  }

  /** A text that starts with `{"key": ` and a boolean word gives it back. */
  lemma BoolFieldAt(json: string, key: string, b: bool)
    requires |Opening(key)| + 5 <= |json| || (b && |Opening(key)| + 4 <= |json|)
    requires json[..|Opening(key)|] == Opening(key)
    requires var word := if b then "true" else "false";
      json[|Opening(key)|..|Opening(key)| + |word|] == word
    ensures BoolField(json, key) == Some(b)
  {
    var o := |Opening(key)|;
    var word := if b then "true" else "false";
    assert json[o] == word[0];
    ValueAfterKey(json, key);
    if !b {
      assert json[o..o + 4][0] == 'f';
    }
  }
}
