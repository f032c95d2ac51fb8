/** The configuration file: the lines `conf_write` prints and `conf_read_file` takes apart. */
module ConfigFile {
  import opened Common
  import opened Expressions

  const NUL := '\0'

  /** `char line[1024]`: at most this many characters are read at once. */
  const CHUNK: nat := 1023

  // ----- strings -----

  predicate Special(ch: char) { ch == '"' || ch == '\\' }

  /** What is printed between the quotes. */
  function Escape(v: string): string {
    if v == "" then ""
    else EscapeChar(v[0]) + Escape(v[1..])
  }

  function EscapeChar(ch: char): string { if Special(ch) then ['\\', ch] else [ch] }

  function Prepend(s: string, r: Option<string>): Option<string> {
    match r case None => None case Some(t) => Some(s + t)
  }

  /** What is read after the opening quote: None if there is no closing quote. */
  function Unescape(s: string): Option<string> {
    if s == "" then None
    else if s[0] == '"' then Some("")
    else if s[0] == '\\' then
      if |s| == 1 then None else Prepend([s[1]], Unescape(s[2..]))
    else Prepend([s[0]], Unescape(s[1..]))
  }

  /** Every string survives, whatever follows the closing quote. */
  lemma {:induction false} StringRoundTrip(v: string, rest: string)
    ensures Unescape(Escape(v) + "\"" + rest) == Some(v)
  {
    var s := Escape(v) + "\"" + rest;
    if v == "" {
      assert s == "\"" + rest;
    } else {
      StringRoundTrip(v[1..], rest);
      var t := Escape(v[1..]) + "\"" + rest;
      if Special(v[0]) { assert s[2..] == t; } else { assert s[1..] == t; }
      assert v == [v[0]] + v[1..];
    }
  }

  /** The string with a backslash in front of the characters marked. */
  function Marked(v: string, marks: seq<bool>): string
    requires |marks| == |v|
  {
    if v == "" then "" else (if marks[0] then ['\\', v[0]] else [v[0]]) + Marked(v[1..], marks[1..])
  }

  /** Every quote and every backslash is marked. */
  predicate Covers(v: string, marks: seq<bool>) {
    |marks| == |v| && forall k | 0 <= k < |v| && v[k] in {'"', '\\'} :: marks[k]
  }

  /** The writer marks these and no other character. */
  lemma {:induction false} EscapeMarks(v: string)
    ensures Escape(v) == Marked(v, seq(|v|, k requires 0 <= k < |v| => v[k] in {'"', '\\'}))
  {
    if v != "" {
      EscapeMarks(v[1..]);
      var marks := seq(|v|, k requires 0 <= k < |v| => v[k] in {'"', '\\'});
      assert marks[1..] == seq(|v[1..]|, k requires 0 <= k < |v[1..]| => v[1..][k] in {'"', '\\'});
    }
  }

  /** The reader takes any string in which they are marked, whatever else is, up to the first bare quote. */
  lemma {:induction false} MarkedReads(v: string, marks: seq<bool>, rest: string)
    requires Covers(v, marks)
    ensures Unescape(Marked(v, marks) + "\"" + rest) == Some(v)
  {
    var s := Marked(v, marks) + "\"" + rest;
    if v == "" {
      assert s == "\"" + rest;
    } else {
      MarkedReads(v[1..], marks[1..], rest);
      var t := Marked(v[1..], marks[1..]) + "\"" + rest;
      if marks[0] { assert s[2..] == t; } else { assert s[1..] == t; }
      assert v == [v[0]] + v[1..];
    }
  }

  /** ... and nothing else. */
  lemma {:induction false} ReadsMarked(s: string) returns (marks: seq<bool>, rest: string)
    requires Unescape(s).Some?
    ensures var v := Unescape(s).value; Covers(v, marks) && s == Marked(v, marks) + "\"" + rest
  {
    if s[0] == '"' {
      marks, rest := [], s[1..];
    } else {
      var k := if s[0] == '\\' then 2 else 1;
      var m;
      m, rest := ReadsMarked(s[k..]);
      marks := [k == 2] + m;
      var v := Unescape(s).value;
      assert v == [v[0]] + v[1..] && marks[1..] == m;
      assert s == s[..k] + s[k..];
    }
  }

  /** A cut anywhere before the closing quote is noticed. */
  lemma {:induction false} CutStringRefused(v: string, n: nat)
    requires n <= |Escape(v)|
    ensures Unescape(Escape(v)[..n]) == None
  {
    var s := Escape(v)[..n];
    if n > 0 {
      var k := if Special(v[0]) then 2 else 1;
      if n >= k {
        CutStringRefused(v[1..], n - k);
        assert s[k..] == Escape(v[1..])[..n - k];
      }
    }
  }

  lemma {:induction false} EscapePlain(v: string, ch: char)
    requires ch !in v && ch != '\\'
    ensures ch !in Escape(v)
  {
    if v != "" { EscapePlain(v[1..], ch); }
  }

  lemma EscapeStep(v: string, p: nat, out: string)
    requires p < |v|
    ensures out + Escape(v[p..]) == out + EscapeChar(v[p]) + Escape(v[p + 1..])
  {
    assert v[p..][1..] == v[p + 1..];
    assert out + (EscapeChar(v[p]) + Escape(v[p + 1..])) == out + EscapeChar(v[p]) + Escape(v[p + 1..]);
  }

  /** The writer's loops: runs of ordinary characters, then runs of special ones. */
  method WriteString(v: string) returns (out: string)
    ensures out == Escape(v)
  {
    out := "";
    var p := 0;
    var more := true;
    assert v[0..] == v && "" + Escape(v) == Escape(v);
    while more
      invariant p <= |v| && Escape(v) == out + Escape(v[p..])
      invariant !more ==> p == |v|
      decreases |v| - p, more
    {
      p, out := WriteRun(v, p, out, false);
      p, out := WriteRun(v, p, out, true);
      more := p < |v|;
    }
  }

  /** A run of characters of one kind. */
  method WriteRun(v: string, p: nat, out: string, special: bool) returns (q: nat, o: string)
    requires p <= |v|
    ensures p <= q <= |v| && o + Escape(v[q..]) == out + Escape(v[p..])
    ensures q < |v| ==> Special(v[q]) != special
    ensures p < |v| && Special(v[p]) == special ==> p < q
  {
    q, o := p, out;
    while q < |v| && Special(v[q]) == special
      invariant p <= q <= |v| && o + Escape(v[q..]) == out + Escape(v[p..])
      invariant q > p || (p < |v| && Special(v[p]) == special ==> q < |v| && Special(v[q]) == special)
    {
      EscapeStep(v, q, o);
      o := o + EscapeChar(v[q]);
      q := q + 1;
    }
  }

  // ----- the line buffer -----

  /** A NUL-terminated string from `p` to its terminator at `e`. */
  predicate CString(line: seq<char>, p: nat, e: nat) {
    p <= e < |line| && line[e] == NUL && forall k | p <= k < e :: line[k] != NUL
  }

  /** `strpbrk(p, "\"\\")`. */
  method FindSpecial(line: array<char>, p: nat, ghost e: nat) returns (r: Option<nat>)
    requires CString(line[..], p, e)
    ensures r.None? ==> forall k | p <= k < e :: !Special(line[k])
    ensures r.Some? ==> p <= r.value < e && Special(line[r.value]) && forall k | p <= k < r.value :: !Special(line[k])
  {
    var k := p;
    while line[k] != NUL
      invariant p <= k <= e && forall j | p <= j < k :: !Special(line[j])
      decreases e - k
    {
      if Special(line[k]) {
        return Some(k);
      }
      k := k + 1;
    }
    r := None;
  }

  /** The buffer with the string from `p` to `e` moved down by one, terminator included. */
  function Shifted(line: seq<char>, p: nat, e: nat): seq<char>
    requires p <= e < |line|
  {
    line[..p] + line[p + 1..e + 1] + line[e..]
  }

  /** `memmove(p, p + 1, strlen(p))`: the first character of the string is dropped. */
  method DropFirst(line: array<char>, p: nat, ghost e: nat)
    requires CString(line[..], p, e) && p < e
    modifies line
    ensures line[..] == Shifted(old(line[..]), p, e)
  {
    var k := p;
    while line[k] != NUL
      invariant p <= k <= e
      invariant forall j | p <= j < k :: line[j] == old(line[j + 1])
      invariant forall j | 0 <= j < line.Length && !(p <= j < k) :: line[j] == old(line[j])
      decreases e - k
    {
      line[k] := line[k + 1];
      k := k + 1;
    }
  }

  lemma {:induction false} UnescapeSkips(s: string, k: nat)
    requires k <= |s| && forall j | 0 <= j < k :: !Special(s[j])
    ensures Unescape(s) == Prepend(s[..k], Unescape(s[k..]))
  {
    if k == 0 {
      assert s[0..] == s && s[..0] == "";
      PrependFacts("", "", Unescape(s));
    } else {
      UnescapeSkips(s[1..], k - 1);
      assert s[1..][k - 1..] == s[k..] && [s[0]] + s[1..][..k - 1] == s[..k];
      PrependFacts([s[0]], s[1..][..k - 1], Unescape(s[k..]));
    }
  }

  lemma PrependFacts(s: string, t: string, r: Option<string>)
    ensures Prepend(s, Prepend(t, r)) == Prepend(s + t, r) && Prepend("", r) == r
  {
    if r.Some? { assert s + (t + r.value) == s + t + r.value && "" + r.value == r.value; }
  }

  /** What is left to read from `p` on, when everything from `start` to `p` is final. */
  function Pending(line: seq<char>, start: nat, p: nat, e: nat): Option<string>
    requires start <= p && e < |line|
  {
    if p <= e then Prepend(line[start..p], Unescape(line[p..e])) else None
  }

  /** Where the search stops nothing was left, or a quote, or a backslash with the character it protects. */
  lemma {:induction false} PendingAt(line: seq<char>, start: nat, p: nat, q: nat, e: nat)
    requires start <= p <= q <= e < |line| && forall j | p <= j < q :: !Special(line[j])
    ensures Pending(line, start, p, e) == Prepend(line[start..q], Unescape(line[q..e]))
  {
    UnescapeSkips(line[p..e], q - p);
    assert line[p..e][..q - p] == line[p..q] && line[p..e][q - p..] == line[q..e];
    assert line[start..p] + line[p..q] == line[start..q];
    PrependFacts(line[start..p], line[p..q], Unescape(line[q..e]));
  }

  /** Dropping a backslash and stepping over the next character keeps the pending result. */
  lemma {:induction false} PendingDrop(line: seq<char>, line': seq<char>, start: nat, q: nat, e: nat)
    requires start <= q < e && CString(line, q, e) && line[q] == '\\'
    requires line' == Shifted(line, q, e)
    ensures Prepend(line[start..q], Unescape(line[q..e])) == Pending(line', start, q + 1, e - 1)
    ensures q + 1 <= e - 1 ==> CString(line', q + 1, e - 1)
    ensures q + 1 > e - 1 ==> CString(line', q + 1, q + 1)
  {
    assert forall t | q <= t < e :: line'[t] == line[t + 1];
    if q + 1 < e {
      assert line'[q + 1..e - 1] == line[q + 2..e];
      assert line[q + 2..e] == line[q..e][2..];
      assert line'[start..q + 1] == line[start..q] + [line[q + 1]];
      PrependFacts(line[start..q], [line[q + 1]], Unescape(line[q + 2..e]));
    }
  }

  /** The state of the unescaping loop; `want` is what it will yield. */
  ghost predicate Scanning(line: seq<char>, start: nat, p: nat, e: nat, want: Option<string>) {
    && start <= p <= e + 1 && e < |line|
    && CString(line, p, if p <= e then e else p)
    && (p <= e ==> forall k | start <= k < p :: line[k] != NUL)
    && want == Pending(line, start, p, e)
  }

  lemma {:induction false} ScanStarts(line: seq<char>, start: nat, e: nat)
    requires CString(line, start, e)
    ensures Scanning(line, start, start, e, Unescape(line[start..e]))
  {
    assert line[start..start] == "";
    PrependFacts("", "", Unescape(line[start..e]));
  }

  lemma {:induction false} ScanFails(line: seq<char>, start: nat, p: nat, e: nat, want: Option<string>)
    requires Scanning(line, start, p, e, want) && forall k | p <= k < e :: !Special(line[k])
    ensures want == None
  {
    if p <= e {
      PendingAt(line, start, p, e, e);
      assert line[e..e] == "";
    }
  }

  lemma {:induction false} ScanEnds(line: seq<char>, start: nat, p: nat, q: nat, e: nat, want: Option<string>)
    requires Scanning(line, start, p, e, want) && p <= q < e && line[q] == '"'
    requires forall k | p <= k < q :: !Special(line[k])
    ensures want == Some(line[start..q]) && forall k | start <= k < q :: line[k] != NUL
  {
    PendingAt(line, start, p, q, e);
    assert line[q..e][0] == '"';
    assert line[start..q] + "" == line[start..q];
  }

  lemma {:induction false} ScanDrops(line: seq<char>, line': seq<char>, start: nat, p: nat, q: nat, e: nat, want: Option<string>)
    requires Scanning(line, start, p, e, want) && p <= q < e && line[q] == '\\'
    requires forall k | p <= k < q :: !Special(line[k])
    requires line' == Shifted(line, q, e)
    ensures Scanning(line', start, q + 1, e - 1, want)
  {
    PendingAt(line, start, p, q, e);
    PendingDrop(line, line', start, q, e);
    assert forall t | q <= t < e :: line'[t] == line[t + 1];
  }

  /** The unescaping loop of `conf_read_file`: backslashes are squeezed out of the buffer in place. */
  method UnescapeInPlace(line: array<char>, start: nat, ghost end: nat) returns (r: Option<string>)
    requires CString(line[..], start, end)
    modifies line
    ensures r == Unescape(old(line[start..end]))
    ensures r.Some? ==> CString(line[..], start, start + |r.value|) && line[start..start + |r.value|] == r.value
  {
    ghost var e: nat, want := end, Unescape(line[start..end]);
    var p: nat := start;
    ScanStarts(line[..], start, end);
    assert line[..][start..end] == line[start..end];
    while true
      invariant e <= end && Scanning(line[..], start, p, e, want)
      decreases e
    {
      ghost var before := line[..];
      var q := FindSpecial(line, p, if p <= e then e else p);
      if q.None? {
        ScanFails(before, start, p, e, want);
        return None;
      }
      if line[q.value] == '"' {
        ScanEnds(before, start, p, q.value, e, want);
        r := Some(line[start..q.value]);
        assert before[start..q.value] == line[start..q.value];
        line[q.value] := NUL;
        return;
      }
      DropFirst(line, q.value, e);
      ScanDrops(before, line[..], start, p, q.value, e, want);
      p, e := q.value + 1, e - 1;
    }
  }

  // ----- lines -----

  datatype Setting = Level(t: Tri) | Text(s: string)

  /** Position of the first `ch`, or the length. */
  function Cut(s: string, ch: char): (k: nat)
    ensures k <= |s| && ch !in s[..k] && (k < |s| ==> s[k] == ch)
  {
    if s == "" || s[0] == ch then 0 else
      var k := Cut(s[1..], ch) + 1;
      assert s[..k] == [s[0]] + s[1..][..k - 1];
      k
  }

  type Types = map<string, SymbolType>

  function TypeOf(types: Types, name: string): SymbolType { if name in types then types[name] else Unknown }

  /** The part after the equals sign, by the type of the symbol. */
  function ParseValue(ty: SymbolType, v: string): Option<Setting> {
    if v == "" then None
    else if ty == Tristate && v[0] == 'm' then Some(Level(Mod))
    else if ty in {Boolean, Tristate} && v[0] == 'y' then Some(Level(Yes))
    else if ty in {Boolean, Tristate} && v[0] == 'n' then Some(Level(No))
    else if ty == Str && v[0] == '"' then
      match Unescape(v[1..]) case None => None case Some(t) => Some(Text(t))
    else None
  }

  function Named(name: string, setting: Option<Setting>): Option<(string, Setting)> {
    match setting case None => None case Some(x) => Some((name, x))
  }

  /** After `# CONFIG_`. */
  function ParseUnset(types: Types, r: string): Option<(string, Setting)> {
    var k := Cut(r, ' ');
    if k == |r| || !("is not set" <= r[k + 1..]) || TypeOf(types, r[..k]) !in {Boolean, Tristate} then None
    else Some((r[..k], Level(No)))
  }

  /** After `CONFIG_`. */
  function ParseAssignment(types: Types, r: string): Option<(string, Setting)> {
    var k := Cut(r, '=');
    if k == |r| then None
    else
      var v := r[k + 1..];
      Named(r[..k], ParseValue(TypeOf(types, r[..k]), v[..Cut(v, '\n')]))
  }

  /** One line as read: the symbol it sets and to what. */
  function ParseLine(types: Types, s: string): Option<(string, Setting)> {
    if |s| >= 2 && s[0] == '#' && "CONFIG_" <= s[2..] then ParseUnset(types, s[9..])
    else if "CONFIG_" <= s then ParseAssignment(types, s[7..])
    else None
  }

  /** One line as written, without its newline. */
  function LineOf(name: string, setting: Setting): string {
    match setting
    case Level(No) => "# CONFIG_" + name + " is not set"
    case Level(Mod) => "CONFIG_" + name + "=m"
    case Level(Yes) => "CONFIG_" + name + "=y"
    case Text(v) => "CONFIG_" + name + "=\"" + Escape(v) + "\""
  }

  predicate GoodName(name: string) { '=' !in name && ' ' !in name && '\n' !in name }

  /** The setting is one a symbol of its type can have, and has no newline. */
  predicate Fits(types: Types, name: string, setting: Setting) {
    match setting
    case Level(Mod) => TypeOf(types, name) == Tristate
    case Level(_) => TypeOf(types, name) in {Boolean, Tristate}
    case Text(v) => TypeOf(types, name) == Str && '\n' !in v
  }

  lemma {:induction false} CutAt(a: string, ch: char, b: string)
    requires ch !in a
    ensures Cut(a + [ch] + b, ch) == |a| && Cut(a, ch) == |a|
  {
    if a != "" {
      CutAt(a[1..], ch, b);
      assert (a + [ch] + b)[1..] == a[1..] + [ch] + b;
    }
  }

  lemma {:induction false} AssignmentParses(types: Types, name: string, v: string, tail: string)
    requires GoodName(name) && '\n' !in v && tail in {"", "\n"}
    ensures ParseLine(types, "CONFIG_" + name + "=" + v + tail) == Named(name, ParseValue(TypeOf(types, name), v))
  {
    var r := name + ['='] + (v + tail);
    var s := "CONFIG_" + name + "=" + v + tail;
    assert s[0] == 'C';
    assert s[7..] == r;
    CutAt(name, '=', v + tail);
    assert r[..|name|] == name && r[|name| + 1..] == v + tail;
    if tail == "" { assert v + tail == v; } else { assert v + tail == v + ['\n'] + ""; }
    CutAt(v, '\n', "");
    assert (v + tail)[..|v|] == v;
  }

  lemma {:induction false} UnsetParses(types: Types, name: string, tail: string)
    requires GoodName(name)
    ensures ParseLine(types, "# CONFIG_" + name + " is not set" + tail)
         == if TypeOf(types, name) in {Boolean, Tristate} then Some((name, Level(No))) else None
  {
    var r := name + [' '] + ("is not set" + tail);
    var s := "# CONFIG_" + name + " is not set" + tail;
    assert s[2..][..7] == "CONFIG_";
    assert s[9..] == r;
    CutAt(name, ' ', "is not set" + tail);
    assert r[..|name|] == name && r[|name| + 1..] == "is not set" + tail;
    assert ("is not set" + tail)[..10] == "is not set";
  }

  /** Every setting survives its own line, with or without the newline at the end. */
  lemma {:induction false} LineRoundTrip(types: Types, name: string, setting: Setting, tail: string)
    requires GoodName(name) && Fits(types, name, setting) && tail in {"", "\n"}
    ensures ParseLine(types, LineOf(name, setting) + tail) == Some((name, setting))
  {
    var s := LineOf(name, setting) + tail;
    match setting
    case Level(No) => UnsetParses(types, name, tail);
    case Level(Mod) => AssignmentParses(types, name, "m", tail); assert s == "CONFIG_" + name + "=" + "m" + tail;
    case Level(Yes) => AssignmentParses(types, name, "y", tail); assert s == "CONFIG_" + name + "=" + "y" + tail;
    case Text(v) => TextParses(types, name, v, tail);
  }

  /** The values a hand-edited line can give a boolean or tristate symbol; `n` reads as the line that says so. */
  lemma {:induction false} HandWritten(types: Types, name: string, v: string, tail: string)
    requires GoodName(name) && TypeOf(types, name) in {Boolean, Tristate} && '\n' !in v && tail in {"", "\n"}
    ensures var r := ParseLine(types, "CONFIG_" + name + "=" + v + tail);
      && ("n" <= v <==> r == ParseLine(types, LineOf(name, Level(No)) + tail))
      && ("y" <= v <==> r == ParseLine(types, LineOf(name, Level(Yes)) + tail))
      && (TypeOf(types, name) == Tristate ==> ("m" <= v <==> r == ParseLine(types, LineOf(name, Level(Mod)) + tail)))
      && (r.None? <==> !("n" <= v || "y" <= v || ("m" <= v && TypeOf(types, name) == Tristate)))
  {
    AssignmentParses(types, name, v, tail);
    LineRoundTrip(types, name, Level(No), tail);
    LineRoundTrip(types, name, Level(Yes), tail);
    if TypeOf(types, name) == Tristate { LineRoundTrip(types, name, Level(Mod), tail); }
    assert forall c: char :: [c] <= v <==> v != "" && v[0] == c;
    assert "n" == ['n'] && "y" == ['y'] && "m" == ['m'];
  }

  lemma {:induction false} TextParses(types: Types, name: string, v: string, tail: string)
    requires GoodName(name) && TypeOf(types, name) == Str && '\n' !in v && tail in {"", "\n"}
    ensures ParseLine(types, LineOf(name, Text(v)) + tail) == Some((name, Text(v)))
  {
    var q := "\"" + Escape(v) + "\"";
    EscapePlain(v, '\n');
    AssignmentParses(types, name, q, tail);
    QuotedLine(name, Escape(v), tail);
    StringRoundTrip(v, "");
    assert q[1..] == Escape(v) + "\"" + "";
  }

  lemma QuotedLine(name: string, e: string, tail: string)
    ensures "CONFIG_" + name + "=\"" + e + "\"" + tail == "CONFIG_" + name + "=" + ("\"" + e + "\"") + tail
  {
    assert "=\"" == "=" + "\"";
  }

  /** A written line cut anywhere before its end is refused. */
  lemma {:induction false} LongLineRefused(types: Types, name: string, setting: Setting, n: nat)
    requires GoodName(name) && Fits(types, name, setting) && n < |LineOf(name, setting)|
    ensures ParseLine(types, LineOf(name, setting)[..n]) == None
  {
    match setting
    case Level(No) => CutUnset(types, name, n);
    case Level(Mod) => CutAssignment(types, name, "m", n);
    case Level(Yes) => CutAssignment(types, name, "y", n);
    case Text(v) => CutText(types, name, v, n);
  }

  lemma {:induction false} CutText(types: Types, name: string, v: string, n: nat)
    requires GoodName(name) && TypeOf(types, name) == Str && '\n' !in v && n < |LineOf(name, Text(v))|
    ensures ParseLine(types, LineOf(name, Text(v))[..n]) == None
  {
    var q := "\"" + Escape(v) + "\"";
    EscapePlain(v, '\n');
    TextLine(name, v);
    forall k | 0 <= k < |q| ensures ParseValue(Str, q[..k]) == None {
      if k > 0 { CutValueRefused(v, k - 1); assert q[..k] == "\"" + Escape(v)[..k - 1]; }
    }
    CutAssignment(types, name, q, n);
  }

  lemma TextLine(name: string, v: string)
    ensures LineOf(name, Text(v)) == "CONFIG_" + name + "=" + ("\"" + Escape(v) + "\"")
  {
    assert "=\"" == "=" + "\"";
  }

  lemma {:induction false} CutAssignment(types: Types, name: string, v: string, n: nat)
    requires GoodName(name) && '\n' !in v && forall k | 0 <= k < |v| :: ParseValue(TypeOf(types, name), v[..k]) == None
    requires n < |"CONFIG_" + name + "=" + v|
    ensures ParseLine(types, ("CONFIG_" + name + "=" + v)[..n]) == None
  {
    var s := ("CONFIG_" + name + "=" + v)[..n];
    if n <= 7 + |name| {
      assert n > 0 ==> s[0] == 'C';
      if n >= 7 { assert s[7..] == name[..n - 7]; }
    } else {
      var k := n - 8 - |name|;
      AssignmentParses(types, name, v[..k], "");
      CutBehind("CONFIG_" + name + "=", v, k);
    }
  }

  lemma CutBehind(a: string, v: string, k: nat)
    requires k <= |v|
    ensures (a + v)[..|a| + k] == a + v[..k] + ""
  {}

  lemma {:induction false} CutUnset(types: Types, name: string, n: nat)
    requires GoodName(name) && n < |"# CONFIG_" + name + " is not set"|
    ensures ParseLine(types, ("# CONFIG_" + name + " is not set")[..n]) == None
  {
    var s := ("# CONFIG_" + name + " is not set")[..n];
    assert n > 0 ==> s[0] == '#';
    if n >= 9 {
      var k := n - 9 - |name|;
      if k <= 0 {
        assert s[9..] == name[..n - 9];
      } else {
        var t := "is not set"[..k - 1];
        CutMiddle("# CONFIG_", name, " is not set", k);
        assert " is not set"[..k] == [' '] + t;
        assert s[9..] == name + [' '] + t;
        CutAt(name, ' ', t);
        assert (name + [' '] + t)[|name| + 1..] == t;
      }
    }
  }

  lemma CutMiddle(a: string, b: string, c: string, k: nat)
    requires k <= |c|
    ensures (a + b + c)[..|a| + |b| + k][|a|..] == b + c[..k]
  {}

  lemma {:induction false} CutValueRefused(v: string, k: nat)
    requires k <= |Escape(v)|
    ensures ParseValue(Str, "\"" + Escape(v)[..k]) == None
  {
    var q := "\"" + Escape(v)[..k];
    CutStringRefused(v, k);
    assert q[1..] == Escape(v)[..k];
  }

  lemma {:induction false} CutThrough(s: string, ch: char)
    requires ch != '\n'
    ensures Cut(s + "\n", ch) == if Cut(s, ch) < |s| then Cut(s, ch) else |s| + 1
  {
    if s == "" {
      assert (s + "\n")[1..] == "";
    } else if s[0] != ch {
      CutThrough(s[1..], ch);
      assert (s + "\n")[1..] == s[1..] + "\n";
    }
  }

  lemma PrefixThrough(pat: string, s: string)
    requires '\n' !in pat
    ensures pat <= s + "\n" <==> pat <= s
  {
    if |pat| == |s| + 1 { assert (s + "\n")[|s|] == '\n'; }
    if |pat| <= |s| { assert (s + "\n")[..|pat|] == s[..|pat|]; }
  }

  /** The newline at the end of a line does not matter. */
  lemma {:induction false} NewlineIgnored(types: Types, line: string)
    requires '\n' !in line
    ensures ParseLine(types, line + "\n") == ParseLine(types, line)
  {
    PrefixThrough("CONFIG_", line);
    if |line| >= 2 {
      PrefixThrough("CONFIG_", line[2..]);
      assert (line + "\n")[2..] == line[2..] + "\n";
    }
    if |line| >= 9 && line[0] == '#' && "CONFIG_" <= line[2..] {
      assert (line + "\n")[9..] == line[9..] + "\n";
      UnsetThrough(types, line[9..]);
    } else if "CONFIG_" <= line {
      assert (line + "\n")[7..] == line[7..] + "\n";
      AssignmentThrough(types, line[7..]);
    }
  }

  lemma UnsetThrough(types: Types, r: string)
    requires '\n' !in r
    ensures ParseUnset(types, r + "\n") == ParseUnset(types, r)
  {
    CutThrough(r, ' ');
    var k := Cut(r, ' ');
    if k < |r| {
      assert (r + "\n")[..k] == r[..k] && (r + "\n")[k + 1..] == r[k + 1..] + "\n";
      PrefixThrough("is not set", r[k + 1..]);
    }
  }

  lemma AssignmentThrough(types: Types, r: string)
    requires '\n' !in r
    ensures ParseAssignment(types, r + "\n") == ParseAssignment(types, r)
  {
    CutThrough(r, '=');
    var k := Cut(r, '=');
    if k < |r| {
      var v := r[k + 1..];
      assert (r + "\n")[..k] == r[..k] && (r + "\n")[k + 1..] == v + ['\n'] + "";
      CutAt(v, '\n', "");
      assert (v + ['\n'] + "")[..|v|] == v == v[..|v|];
    }
  }

  // ----- the file -----

  /** What `conf_write` prints for one entry of the walk. */
  datatype Record = Heading(prompt: string) | Value(name: string, setting: Setting)

  function LinesOf(r: Record): seq<string> {
    match r
    case Heading(p) => ["", "#", "# " + p, "#"]
    case Value(name, setting) => [LineOf(name, setting)]
  }

  function TextOfLines(lines: seq<string>): string {
    if lines == [] then "" else lines[0] + "\n" + TextOfLines(lines[1..])
  }

  function TextOf(rs: seq<Record>): string {
    if rs == [] then "" else TextOfLines(LinesOf(rs[0])) + TextOf(rs[1..])
  }

  /** How many characters `fgets` takes: through the newline, but no more than the buffer holds. */
  function Chunk(text: string): (n: nat)
    requires text != ""
    ensures 0 < n <= |text| && n <= CHUNK
  {
    var k := Cut(text, '\n');
    var n := if k < |text| then k + 1 else k;
    if n < CHUNK then n else CHUNK
  }

  type Settings = map<string, Setting>

  function Store(m: Settings, r: Option<(string, Setting)>): Settings {
    match r case None => m case Some((name, x)) => m[name := x]
  }

  /** `conf_read_file`: chunk after chunk. */
  function ReadText(types: Types, text: string, m: Settings): Settings
    decreases |text|
  {
    if text == "" then m
    else
      var n := Chunk(text);
      ReadText(types, text[n..], Store(m, ParseLine(types, text[..n])))
  }

  /** A line without a newline of its own that fits the buffer means `r`, with its newline or cut off before it. */
  ghost predicate Reads(types: Types, line: string, r: Option<(string, Setting)>) {
    && '\n' !in line && |line| <= CHUNK
    && ParseLine(types, line) == r && ParseLine(types, line + "\n") == r
  }

  /** The first chunk is the line with its newline, or, when it just fills the buffer, the line without. */
  lemma {:induction false} ChunkOfLine(line: string, rest: string)
    requires '\n' !in line && |line| <= CHUNK
    ensures var text := line + "\n" + rest;
      if |line| < CHUNK then
        Chunk(text) == |line| + 1 && text[..|line| + 1] == line + "\n" && text[|line| + 1..] == rest
      else
        Chunk(text) == CHUNK && text[..CHUNK] == line && text[CHUNK..] == "\n" + rest
  {
    assert line + "\n" + rest == line + ['\n'] + rest;
    CutAt(line, '\n', rest);
  }

  lemma {:induction false} ReadOne(types: Types, line: string, rest: string, m: Settings, r: Option<(string, Setting)>)
    requires Reads(types, line, r)
    ensures ReadText(types, line + "\n" + rest, m) == ReadText(types, rest, Store(m, r))
  {
    ChunkOfLine(line, rest);
    if |line| < CHUNK {
      ReadUnfolds(types, line + "\n" + rest, line + "\n", rest, m);
    } else {
      ReadUnfolds(types, line + "\n" + rest, line, "\n" + rest, m);
      ReadEmptyLine(types, rest, Store(m, r));
    }
  }

  lemma {:induction false} ReadEmptyLine(types: Types, rest: string, m: Settings)
    ensures ReadText(types, "\n" + rest, m) == ReadText(types, rest, m)
  {
    ChunkOfLine("", rest);
    assert "" + "\n" + rest == "\n" + rest && "" + "\n" == "\n";
    ReadUnfolds(types, "\n" + rest, "\n", rest, m);
    assert ParseLine(types, "\n") == None;
  }

  lemma {:induction false} ReadUnfolds(types: Types, text: string, line: string, rest: string, m: Settings)
    requires text != "" && line == text[..Chunk(text)] && rest == text[Chunk(text)..]
    ensures ReadText(types, text, m) == ReadText(types, rest, Store(m, ParseLine(types, line)))
  {}

  // ----- lines of any length -----

  /** A line is taken in pieces that fill the buffer, and each piece is read as a line of its own. */
  function ReadPieces(types: Types, line: string, m: Settings): Settings
    decreases |line|
  {
    if |line| <= CHUNK then Store(m, ParseLine(types, line))
    else ReadPieces(types, line[CHUNK..], Store(m, ParseLine(types, line[..CHUNK])))
  }

  /** What any line without a newline of its own does, however long. */
  lemma {:induction false} LineReads(types: Types, line: string, rest: string, m: Settings)
    requires '\n' !in line
    ensures ReadText(types, line + "\n" + rest, m) == ReadText(types, rest, ReadPieces(types, line, m))
    decreases |line|
  {
    if |line| <= CHUNK {
      NewlineIgnored(types, line);
      ReadOne(types, line, rest, m, ParseLine(types, line));
    } else {
      var text, tail := line + "\n" + rest, line[CHUNK..];
      assert text == line + ['\n'] + rest;
      CutAt(line, '\n', rest);
      assert text[..CHUNK] == line[..CHUNK] && text[CHUNK..] == tail + "\n" + rest;
      ReadUnfolds(types, text, line[..CHUNK], tail + "\n" + rest, m);
      LineReads(types, tail, rest, Store(m, ParseLine(types, line[..CHUNK])));
    }
  }

  /** A written line sets its symbol if it fits the buffer; a longer one is read from its tail on. */
  lemma {:induction false} WrittenLineReads(types: Types, name: string, setting: Setting, m: Settings)
    requires GoodName(name) && Fits(types, name, setting)
    ensures var line := LineOf(name, setting);
      ReadPieces(types, line, m) == if |line| <= CHUNK then m[name := setting] else ReadPieces(types, line[CHUNK..], m)
  {
    var line := LineOf(name, setting);
    if |line| <= CHUNK {
      LineRoundTrip(types, name, setting, "");
      assert line + "" == line;
    } else {
      LongLineRefused(types, name, setting, CHUNK);
    }
  }

  // ----- what survives -----

  /** A name without separators, a setting its symbol can have, and no newlines. */
  ghost predicate Clean(types: Types, r: Record) {
    match r
    case Heading(p) => '\n' !in p
    case Value(name, setting) => GoodName(name) && Fits(types, name, setting)
  }

  /** No piece of the line sets anything. */
  ghost predicate Silent(types: Types, line: string)
    decreases |line|
  {
    if |line| <= CHUNK then ParseLine(types, line) == None
    else ParseLine(types, line[..CHUNK]) == None && Silent(types, line[CHUNK..])
  }

  /** A heading must not set anything; the line of a setting must fit the buffer. */
  ghost predicate Storable(types: Types, r: Record) {
    match r
    case Heading(p) => Silent(types, "# " + p)
    case Value(name, setting) => |LineOf(name, setting)| <= CHUNK
  }

  /** What reading back the lines of one record does. */
  function ReadRecord(types: Types, r: Record, m: Settings): Settings {
    match r
    case Heading(p) => ReadPieces(types, "# " + p, m)
    case Value(name, setting) => ReadPieces(types, LineOf(name, setting), m)
  }

  function ReadAll(types: Types, rs: seq<Record>, m: Settings): Settings
    decreases |rs|
  {
    if rs == [] then m else ReadAll(types, rs[1..], ReadRecord(types, rs[0], m))
  }

  function StoreRecord(m: Settings, r: Record): Settings {
    match r case Heading(_) => m case Value(name, setting) => m[name := setting]
  }

  function StoreAll(m: Settings, rs: seq<Record>): Settings
    decreases |rs|
  {
    if rs == [] then m else StoreAll(StoreRecord(m, rs[0]), rs[1..])
  }

  lemma {:induction false} LineHasNoNewline(types: Types, name: string, setting: Setting)
    requires GoodName(name) && Fits(types, name, setting)
    ensures '\n' !in LineOf(name, setting)
  {
    match setting
    case Level(No) => assert '\n' !in "# CONFIG_" && '\n' !in " is not set";
    case Level(Mod) => assert '\n' !in "CONFIG_" && '\n' !in "=m";
    case Level(Yes) => assert '\n' !in "CONFIG_" && '\n' !in "=y";
    case Text(v) =>
      EscapePlain(v, '\n');
      assert '\n' !in "CONFIG_" && '\n' !in "=\"" && '\n' !in "\"";
  }

  lemma {:induction false} ReadHeading(types: Types, p: string, rest: string, m: Settings)
    requires '\n' !in p
    ensures ReadText(types, TextOfLines(LinesOf(Heading(p))) + rest, m) == ReadText(types, rest, ReadPieces(types, "# " + p, m))
  {
    var m' := ReadPieces(types, "# " + p, m);
    var a := "#" + "\n" + rest;
    var b := ("# " + p) + "\n" + a;
    var c := "#" + "\n" + b;
    LineReads(types, "#", rest, m');
    LineReads(types, "# " + p, a, m);
    LineReads(types, "#", b, m);
    LineReads(types, "", c, m);
    HeadingText(p, rest);
  }

  lemma HeadingText(p: string, rest: string)
    ensures TextOfLines(LinesOf(Heading(p))) + rest
         == "" + "\n" + ("#" + "\n" + (("# " + p) + "\n" + ("#" + "\n" + rest)))
  {
    var lines := LinesOf(Heading(p));
    assert lines[1..][1..][1..][1..] == [];
    assert TextOfLines(lines[1..][1..][1..]) == "#" + "\n" + "";
    assert TextOfLines(lines[1..][1..]) == ("# " + p) + "\n" + ("#" + "\n" + "");
    assert TextOfLines(lines[1..]) == "#" + "\n" + (("# " + p) + "\n" + ("#" + "\n" + ""));
  }

  lemma {:induction false} ReadSetting(types: Types, name: string, setting: Setting, rest: string, m: Settings)
    requires GoodName(name) && Fits(types, name, setting)
    ensures ReadText(types, TextOfLines(LinesOf(Value(name, setting))) + rest, m)
         == ReadText(types, rest, ReadPieces(types, LineOf(name, setting), m))
  {
    LineHasNoNewline(types, name, setting);
    LineReads(types, LineOf(name, setting), rest, m);
    var lines := LinesOf(Value(name, setting));
    assert lines[1..] == [];
    assert TextOfLines(lines) == LineOf(name, setting) + "\n" + TextOfLines([]);
    NothingBetween(LineOf(name, setting), rest);
  }

  lemma NothingBetween(line: string, rest: string)
    ensures (line + "\n" + "") + rest == line + "\n" + rest
  {}

  /** Reading back any written file, long lines and all, is reading back its records one after the other. */
  lemma {:induction false} FileReads(types: Types, rs: seq<Record>, m: Settings)
    requires forall r | r in rs :: Clean(types, r)
    ensures ReadText(types, TextOf(rs), m) == ReadAll(types, rs, m)
    decreases |rs|
  {
    if rs != [] {
      var r, rest := rs[0], TextOf(rs[1..]);
      assert r in rs;
      match r {
        case Heading(p) => ReadHeading(types, p, rest, m);
        case Value(name, setting) => ReadSetting(types, name, setting, rest, m);
      }
      FileReads(types, rs[1..], ReadRecord(types, r, m));
    }
  }

  /** Writing a configuration and reading it back gives every symbol the setting that was written last. */
  lemma {:induction false} FileRoundTrip(types: Types, rs: seq<Record>, m: Settings)
    requires forall r | r in rs :: Clean(types, r) && Storable(types, r)
    ensures ReadText(types, TextOf(rs), m) == StoreAll(m, rs)
  {
    FileReads(types, rs, m);
    AllStored(types, rs, m);
  }

  lemma {:induction false} AllStored(types: Types, rs: seq<Record>, m: Settings)
    requires forall r | r in rs :: Clean(types, r) && Storable(types, r)
    ensures ReadAll(types, rs, m) == StoreAll(m, rs)
    decreases |rs|
  {
    if rs != [] {
      assert rs[0] in rs;
      RecordStored(types, rs[0], m);
      AllStored(types, rs[1..], StoreRecord(m, rs[0]));
    }
  }

  lemma RecordStored(types: Types, r: Record, m: Settings)
    requires Clean(types, r) && Storable(types, r)
    ensures ReadRecord(types, r, m) == StoreRecord(m, r)
  {
    match r
    case Heading(p) => SilentReads(types, "# " + p, m);
    case Value(name, setting) => WrittenLineReads(types, name, setting, m);
  }

  lemma {:induction false} SilentReads(types: Types, line: string, m: Settings)
    ensures Silent(types, line) ==> ReadPieces(types, line, m) == m
    ensures m.Keys <= ReadPieces(types, line, m).Keys
    ensures !Silent(types, line) ==> ReadPieces(types, line, m) != map[]
    decreases |line|
  {
    var r := ParseLine(types, if |line| <= CHUNK then line else line[..CHUNK]);
    assert r.Some? ==> r.value.0 in Store(m, r).Keys;
    if |line| > CHUNK { SilentReads(types, line[CHUNK..], Store(m, r)); }
    assert r.Some? ==> r.value.0 in ReadPieces(types, line, m).Keys;
  }

  /** A record is read back as it was written, whatever was read before it, if and only if it is storable. */
  lemma {:induction false} RecordSurvives(types: Types, r: Record)
    requires Clean(types, r)
    ensures Storable(types, r) <==> forall m :: ReadRecord(types, r, m) == StoreRecord(m, r)
  {
    if Storable(types, r) {
      forall m ensures ReadRecord(types, r, m) == StoreRecord(m, r) { RecordStored(types, r, m); }
    } else {
      match r
      case Heading(p) =>
        SilentReads(types, "# " + p, map[]);
        assert ReadRecord(types, r, map[]) != StoreRecord(map[], r);
      case Value(name, setting) =>
        WrittenLineReads(types, name, setting, map[]);
        OwnUntouched(types, name, setting, CHUNK, map[]);
        assert name in StoreRecord(map[], r);
        assert ReadRecord(types, r, map[]) != StoreRecord(map[], r);
    }
  }

  /** What a heading that fits the buffer looks like when it is read as an unset symbol. */
  predicate ReadsAsUnset(types: Types, p: string) {
    && "CONFIG_" <= p
    && var k := Cut(p[7..], ' ');
    && k < |p| - 7 && "is not set" <= p[k + 8..]
    && TypeOf(types, p[7..k + 7]) in {Boolean, Tristate}
  }

  lemma HeadingSilent(types: Types, p: string)
    requires |p| + 2 <= CHUNK
    ensures Silent(types, "# " + p) <==> !ReadsAsUnset(types, p)
  {
    var line := "# " + p;
    assert line[2..] == p && line[0] == '#';
    if "CONFIG_" <= p {
      var k := Cut(p[7..], ' ');
      assert line[9..] == p[7..];
      assert p[7..][..k] == p[7..k + 7];
      if k < |p| - 7 { assert p[7..][k + 1..] == p[k + 8..]; }
    }
  }

  /** A heading can unset a symbol. */
  lemma HeadingUnsets(types: Types, foo: string, m: Settings)
    requires GoodName(foo) && TypeOf(types, foo) in {Boolean, Tristate} && |foo| + 20 <= CHUNK
    ensures ReadRecord(types, Heading("CONFIG_" + foo + " is not set"), m) == m[foo := Level(No)]
  {
    UnsetParses(types, foo, "");
    UnsetHeading(foo);
  }

  lemma UnsetHeading(foo: string)
    ensures "# " + ("CONFIG_" + foo + " is not set") == "# CONFIG_" + foo + " is not set" + ""
  {
    assert "# CONFIG_" == "# " + "CONFIG_";
  }

  /** Of a string whose first part fills the buffer, the rest is read as a line of its own. */
  lemma LongStringReads(types: Types, name: string, pad: string, t: string, m: Settings)
    requires GoodName(name) && TypeOf(types, name) == Str && '\n' !in pad && '\n' !in t
    requires |name| + 9 + |Escape(pad)| == CHUNK && |Escape(t)| < CHUNK
    ensures ReadRecord(types, Value(name, Text(pad + t)), m) == Store(m, ParseLine(types, Escape(t) + "\""))
  {
    LongStringTail(name, pad, t);
    WrittenLineReads(types, name, Text(pad + t), m);
  }

  /** So a long string can set a symbol named in it. */
  lemma LongStringSets(types: Types, name: string, pad: string, foo: string, m: Settings)
    requires GoodName(name) && TypeOf(types, name) == Str && '\n' !in pad && |name| + 9 + |Escape(pad)| == CHUNK
    requires GoodName(foo) && TypeOf(types, foo) in {Boolean, Tristate} && |foo| + 10 <= CHUNK
    requires forall ch | ch in foo :: !Special(ch)
    ensures ReadRecord(types, Value(name, Text(pad + ("CONFIG_" + foo + "=y"))), m) == m[foo := Level(Yes)]
  {
    var t := "CONFIG_" + foo + "=y";
    assert '\n' !in t by { assert '\n' !in "CONFIG_" && '\n' !in "=y"; }
    assert Escape(t) == t by { PlainAssignment(foo); }
    assert ParseLine(types, t + "\"") == Some((foo, Level(Yes))) by { QuotedAssignment(types, foo); }
    LongStringReads(types, name, pad, t, m);
  }

  lemma PlainAssignment(foo: string)
    requires forall ch | ch in foo :: !Special(ch)
    ensures var t := "CONFIG_" + foo + "=y"; Escape(t) == t
  {
    var t := "CONFIG_" + foo + "=y";
    forall ch | ch in t ensures !Special(ch) { assert ch in "CONFIG_" || ch in foo || ch in "=y"; }
    EscapeNothing(t);
  }

  lemma QuotedAssignment(types: Types, foo: string)
    requires GoodName(foo) && TypeOf(types, foo) in {Boolean, Tristate}
    ensures ParseLine(types, "CONFIG_" + foo + "=y" + "\"") == Some((foo, Level(Yes)))
  {
    AssignmentParses(types, foo, "y\"", "");
    assert "CONFIG_" + foo + "=y" + "\"" == "CONFIG_" + foo + "=" + "y\"" + "";
  }

  lemma LongStringTail(name: string, pad: string, t: string)
    ensures var line := LineOf(name, Text(pad + t)); var n := |name| + 9 + |Escape(pad)|;
      |line| == n + |Escape(t)| + 1 && line[n..] == Escape(t) + "\""
  {
    EscapeConcat(pad, t);
    TailOfThree("CONFIG_" + name + "=\"", Escape(pad), Escape(t), "\"");
  }

  lemma TailOfThree(a: string, b: string, c: string, d: string)
    ensures (a + (b + c) + d)[|a| + |b|..] == c + d
  {}

  lemma {:induction false} EscapeConcat(v: string, w: string)
    ensures Escape(v + w) == Escape(v) + Escape(w)
  {
    if v == "" {
      assert v + w == w;
    } else {
      EscapeConcat(v[1..], w);
      assert (v + w)[1..] == v[1..] + w && (v + w)[0] == v[0];
      Regroup(EscapeChar(v[0]), Escape(v[1..]), Escape(w));
    }
  }

  lemma {:induction false} EscapeNothing(v: string)
    requires forall ch | ch in v :: !Special(ch)
    ensures Escape(v) == v
  {
    if v != "" { EscapeNothing(v[1..]); }
  }

  // ----- a line that does not fit never sets its own symbol -----

  /** Between the quotes every quote stands behind a backslash. */
  lemma {:induction false} EscapeGuards(v: string, j: nat)
    requires j < |Escape(v)| && Escape(v)[j] == '"'
    ensures j > 0 && Escape(v)[j - 1] == '\\'
  {
    var k := |EscapeChar(v[0])|;
    if j >= k { EscapeGuards(v[1..], j - k); }
  }

  lemma {:induction false} ParsedShorter(types: Types, s: string)
    ensures var r := ParseLine(types, s); r.Some? ==> |r.value.0| + 8 <= |s|
  {}

  /** A piece of the tail does not assign a string to a symbol of the same name: the quote would be escaped. */
  lemma {:induction false} TailQuote(name: string, v: string, o: nat, o': nat)
    requires var line := LineOf(name, Text(v)); CHUNK <= o <= o' <= |line| && o' - o > 9 + |name|
    requires LineOf(name, Text(v))[o + 7 + |name|] == '='
    ensures LineOf(name, Text(v))[o + 8 + |name|] != '"'
  {
    var line, j := LineOf(name, Text(v)), o - 1;
    assert j < |Escape(v)| && line[o + 8 + |name|] == Escape(v)[j];
    assert line[o + 7 + |name|] == Escape(v)[j - 1];
    if Escape(v)[j] == '"' { EscapeGuards(v, j); }
  }

  lemma {:induction false} TextPieceNotOwn(types: Types, name: string, v: string, o: nat, o': nat)
    requires GoodName(name) && TypeOf(types, name) == Str && '\n' !in v
    requires var line := LineOf(name, Text(v)); CHUNK <= o <= o' <= |line|
    ensures var r := ParseLine(types, LineOf(name, Text(v))[o..o']); r.Some? ==> r.value.0 != name
  {
    var line := LineOf(name, Text(v));
    var c := line[o..o'];
    if "CONFIG_" <= c && Cut(c[7..], '=') == |name| < |c| - 7 {
      var w := c[7..][|name| + 1..];
      assert c[7..][|name|] == c[7 + |name|] == line[o + 7 + |name|];
      if |w| >= 2 {
        TailQuote(name, v, o, o');
        assert w[0] == line[o + 8 + |name|];
      }
      assert ParseValue(Str, w[..Cut(w, '\n')]) == None;
    }
  }

  /** ... so the symbol keeps what it had. */
  lemma {:induction false} OwnUntouched(types: Types, name: string, setting: Setting, o: nat, m: Settings)
    requires GoodName(name) && Fits(types, name, setting) && CHUNK <= o <= |LineOf(name, setting)|
    ensures var m' := ReadPieces(types, LineOf(name, setting)[o..], m);
      (name in m' <==> name in m) && (name in m ==> m'[name] == m[name])
    decreases |LineOf(name, setting)| - o
  {
    var line := LineOf(name, setting);
    var o' := if |line| - o <= CHUNK then |line| else o + CHUNK;
    PieceNotOwn(types, name, setting, o, o');
    if o' == |line| {
      assert line[o..] == line[o..o'];
    } else {
      assert line[o..][..CHUNK] == line[o..o'] && line[o..][CHUNK..] == line[o'..];
      OwnUntouched(types, name, setting, o', Store(m, ParseLine(types, line[o..o'])));
    }
  }

  lemma {:induction false} PieceNotOwn(types: Types, name: string, setting: Setting, o: nat, o': nat)
    requires GoodName(name) && Fits(types, name, setting) && CHUNK <= o <= o' <= |LineOf(name, setting)|
    ensures var r := ParseLine(types, LineOf(name, setting)[o..o']); r.Some? ==> r.value.0 != name
  {
    match setting
    case Level(_) => ParsedShorter(types, LineOf(name, setting)[o..o']);
    case Text(v) => TextPieceNotOwn(types, name, v, o, o');
  }

  // ----- reading in place -----

  /** `strchr`: the position of `ch`, or of the terminator. */
  method FindChar(line: array<char>, p: nat, ghost e: nat, ch: char) returns (k: nat)
    requires CString(line[..], p, e) && ch != NUL
    ensures k == p + Cut(line[p..e], ch)
    ensures p <= k <= e && (k < e <==> line[k] == ch)
  {
    k := p;
    assert line[p..e] == line[k..e];
    while line[k] != NUL && line[k] != ch
      invariant p <= k <= e && Cut(line[p..e], ch) == k - p + Cut(line[k..e], ch)
      decreases e - k
    {
      assert line[k..e][1..] == line[k + 1..e];
      k := k + 1;
    }
  }

  /** `memcmp` and `strncmp` against a fixed text: a terminator in the line is a difference. */
  method StartsWith(line: array<char>, p: nat, ghost e: nat, pat: string) returns (b: bool)
    requires CString(line[..], p, e) && NUL !in pat
    ensures b <==> pat <= line[p..e]
  {
    for k := 0 to |pat|
      invariant p + k <= e && pat[..k] == line[p..p + k]
    {
      if line[p + k] != pat[k] {
        return false;
      }
      assert pat[k] in pat;
    }
    assert line[p..e][..|pat|] == line[p..p + |pat|];
    b := true;
  }

  /** One line, taken apart in the buffer it was read into. */
  method ReadLine(types: Types, line: array<char>, n: nat) returns (r: Option<(string, Setting)>)
    requires line.Length == CHUNK + 1 && 0 < n <= CHUNK && CString(line[..], 0, n)
    requires n == 1 ==> line[0] != '#'
    modifies line
    ensures r == ParseLine(types, old(line[..n]))
  {
    ghost var s := line[..n];
    r := None;
    if line[0] == '#' {
      assert s[2..] == line[2..n];
      var b := StartsWith(line, 2, n, "CONFIG_");
      if b {
        assert s[9..] == line[9..n];
        r := ReadUnset(types, line, n);
      }
    } else if line[0] == 'C' {
      assert s == line[0..n];
      var b := StartsWith(line, 0, n, "CONFIG_");
      if b {
        assert s[7..] == line[7..n];
        r := ReadAssignment(types, line, n);
      }
    }
  }

  method ReadUnset(types: Types, line: array<char>, ghost n: nat) returns (r: Option<(string, Setting)>)
    requires 9 <= n && CString(line[..], 9, n)
    modifies line
    ensures r == ParseUnset(types, old(line[9..n]))
  {
    var p := FindChar(line, 9, n, ' ');
    if line[p] == NUL {
      return None;
    }
    assert line[9..n][p - 9 + 1..] == line[p + 1..n] && line[9..n][..p - 9] == line[9..p];
    line[p] := NUL;
    var name := line[9..p];
    var b := StartsWith(line, p + 1, n, "is not set");
    if b && TypeOf(types, name) in {Boolean, Tristate} {
      return Some((name, Level(No)));
    }
    r := None;
  }

  method ReadAssignment(types: Types, line: array<char>, ghost n: nat) returns (r: Option<(string, Setting)>)
    requires 7 <= n && CString(line[..], 7, n)
    modifies line
    ensures r == ParseAssignment(types, old(line[7..n]))
  {
    var p := FindChar(line, 7, n, '=');
    if line[p] == NUL {
      return None;
    }
    assert line[7..n][p - 7 + 1..] == line[p + 1..n] && line[7..n][..p - 7] == line[7..p];
    line[p] := NUL;
    var name := line[7..p];
    var x := ReadRest(TypeOf(types, name), line, p + 1, n);
    r := Named(name, x);
  }

  /** The value ends at the newline. */
  method ReadRest(ty: SymbolType, line: array<char>, p: nat, ghost n: nat) returns (r: Option<Setting>)
    requires CString(line[..], p, n)
    modifies line
    ensures var v := old(line[p..n]); r == ParseValue(ty, v[..Cut(v, '\n')])
  {
    var q := FindChar(line, p, n, '\n');
    assert line[p..n][..q - p] == line[p..q];
    line[q] := NUL;
    r := ReadValue(ty, line, p, q);
  }

  method ReadValue(ty: SymbolType, line: array<char>, p: nat, ghost e: nat) returns (r: Option<Setting>)
    requires CString(line[..], p, e)
    modifies line
    ensures r == ParseValue(ty, old(line[p..e]))
  {
    r := None;
    if line[p] == NUL {
      return;
    }
    assert line[p..e][0] == line[p];
    if ty == Tristate && line[p] == 'm' {
      r := Some(Level(Mod));
    } else if ty in {Boolean, Tristate} {
      if line[p] == 'y' {
        r := Some(Level(Yes));
      } else if line[p] == 'n' {
        r := Some(Level(No));
      }
    } else if ty == Str && line[p] == '"' {
      assert line[p..e][1..] == line[p + 1..e];
      var t := UnescapeInPlace(line, p + 1, e);
      if t.Some? {
        r := Some(Text(t.value));
      }
    }
  }

  /** No chunk is a lone `#`: the reader would compare what an earlier line left in the buffer behind it. */
  ghost predicate NoLoneHash(text: string)
    decreases |text|
  {
    text != "" ==> text[..Chunk(text)] != "#" && NoLoneHash(text[Chunk(text)..])
  }

  lemma {:induction false} CompleteLines(text: string)
    requires text != "" ==> text[|text| - 1] == '\n'
    ensures NoLoneHash(text)
    decreases |text|
  {
    if text != "" {
      var n := Chunk(text);
      CompleteLines(text[n..]);
      assert n == 1 && |text| == 1 ==> text[..1] == "\n";
      assert n == 1 && |text| > 1 ==> text[0] == '\n';
    }
  }

  /** A written file never ends in a lone `#`. */
  lemma {:induction false} WrittenReadable(rs: seq<Record>)
    ensures NoLoneHash(TextOf(rs))
  {
    WrittenComplete(rs);
    CompleteLines(TextOf(rs));
  }

  lemma {:induction false} LinesComplete(lines: seq<string>)
    ensures lines != [] ==> var t := TextOfLines(lines); t != "" && t[|t| - 1] == '\n'
  {
    if |lines| > 1 { LinesComplete(lines[1..]); }
  }

  lemma {:induction false} WrittenComplete(rs: seq<Record>)
    ensures rs != [] ==> var t := TextOf(rs); t != "" && t[|t| - 1] == '\n'
  {
    if rs != [] {
      LinesComplete(LinesOf(rs[0]));
      WrittenComplete(rs[1..]);
    }
  }

  /** The reading loop; the last line need not be complete. */
  method ReadFile(types: Types, text: string) returns (m: Settings)
    requires NUL !in text && NoLoneHash(text)
    ensures m == ReadText(types, text, map[])
  {
    m := map[];
    var line := new char[CHUNK + 1];
    var rest := text;
    ghost var all := ReadText(types, text, map[]);
    while rest != ""
      invariant NUL !in rest && NoLoneHash(rest)
      invariant all == ReadText(types, rest, m)
      decreases |rest|
    {
      var n := Fgets(rest, line);
      ReadUnfolds(types, rest, line[..n], rest[n..], m);
      assert n == 1 ==> line[..n] == [line[0]];
      var r := ReadLine(types, line, n);
      m := Store(m, r);
      rest := rest[n..];
    }
  }

  /** `fgets`. */
  method Fgets(text: string, line: array<char>) returns (n: nat)
    requires text != "" && NUL !in text && line.Length == CHUNK + 1
    modifies line
    ensures n == Chunk(text) && line[..n] == text[..n] && CString(line[..], 0, n)
  {
    n := Chunk(text);
    forall k | 0 <= k < n { line[k] := text[k]; }
    line[n] := NUL;
  }

  /** The writing loop. */
  method WriteFile(rs: seq<Record>) returns (text: string)
    ensures text == TextOf(rs)
  {
    text := "";
    for k := 0 to |rs|
      invariant TextOf(rs) == text + TextOf(rs[k..])
    {
      assert rs[k..][0] == rs[k] && rs[k..][1..] == rs[k + 1..];
      var t := WriteRecord(rs[k]);
      Regroup(text, t, TextOf(rs[k + 1..]));
      text := text + t;
    }
  }

  method WriteRecord(r: Record) returns (t: string)
    ensures t == TextOfLines(LinesOf(r))
  {
    match r {
      case Heading(p) =>
        t := "\n#\n# " + p + "\n#\n";
        HeadingText(p, "");
        assert TextOfLines(LinesOf(r)) + "" == TextOfLines(LinesOf(r));
      case Value(name, setting) =>
        assert LinesOf(r)[1..] == [];
        match setting {
          case Level(No) => t := "# CONFIG_" + name + " is not set\n";
          case Level(Mod) => t := "CONFIG_" + name + "=m\n";
          case Level(Yes) => t := "CONFIG_" + name + "=y\n";
          case Text(v) =>
            var e := WriteString(v);
            t := "CONFIG_" + name + "=\"" + e + "\"\n";
        }
    }
  }
}
