/** `SimpleJson` of StereoStream/ZED_StreoStream/cpp/src/main_visionpro.cpp:
    the flat string-to-string object the control server reads commands with
    and writes responses with. */
module Json {
  import opened Wire
  import opened Decimal

  // ---------------------------------------------------------------------------
  // Characters and searches

  /** The four characters `parse` erases before scanning. */
  predicate IsErased(c: char) {
    c == ' ' || c == '\n' || c == '\r' || c == '\t'
  }

  /** The erase-remove passes of `parse`: every space, newline, carriage
      return and tab goes, inside quoted values too. */
  function Strip(s: string): (r: string)
    ensures |r| <= |s|
    ensures forall i :: 0 <= i < |r| ==> !IsErased(r[i])
  {
    if s == [] then []
    else if IsErased(s[0]) then Strip(s[1..])
    else [s[0]] + Strip(s[1..])
  }

  /** Text without those characters is left alone. */
  lemma {:induction false} StripNoOp(s: string)
    requires forall i :: 0 <= i < |s| ==> !IsErased(s[i])
    ensures Strip(s) == s
  {
    if s != [] {
      StripNoOp(s[1..]);
    }
  }

  /** One leading `{` and then one trailing `}` are dropped. An empty string
      is left as it is (`front()` on it is undefined in C++). */
  function Unbrace(s: string): (r: string)
    ensures var lead := if s != [] && s[0] == '{' then 1 else 0;
      && lead + |r| <= |s| && r == s[lead .. lead + |r|]
      && (lead + |r| < |s| <==> lead < |s| && s[|s| - 1] == '}')
      && lead + |r| + 1 >= |s|
  {
    var a := if s != [] && s[0] == '{' then s[1..] else s;
    if a != [] && a[|a| - 1] == '}' then a[..|a| - 1] else a
  }

  /** `s[i]` on a `std::string`, including the terminating NUL at `i == size()`. */
  function CharAt(s: string, i: nat): char {
    if i < |s| then s[i] else '\0'
  }

  /** `s.find(c, from)`: the first position at or after `from` holding `c`. */
  function Find(s: string, c: char, from: nat): (r: Option<nat>)
    ensures r.Some? ==> from <= r.value < |s| && s[r.value] == c
    decreases |s| - from
  {
    if from >= |s| then None
    else if s[from] == c then Some(from)
    else Find(s, c, from + 1)
  }

  /** `find` returns the first occurrence. */
  /** What `find` reports is the first occurrence, and npos means there is none. */
  lemma {:induction false} FindFirst(s: string, c: char, from: nat)
    ensures Find(s, c, from).Some? ==> forall j :: from <= j < Find(s, c, from).value ==> s[j] != c
    ensures Find(s, c, from).None? ==> forall j :: from <= j < |s| ==> s[j] != c
    decreases |s| - from
  {
    if from < |s| && s[from] != c {
      FindFirst(s, c, from + 1);
    }
  }

  lemma {:induction false} FindIs(s: string, c: char, from: nat, i: nat)
    requires from <= i < |s| && s[i] == c
    requires forall j :: from <= j < i ==> s[j] != c
    ensures Find(s, c, from) == Some(i)
    decreases i - from
  {
    if from < i {
      FindIs(s, c, from + 1, i);
    }
  }

  /** `find` reports npos exactly when there is no occurrence. */
  lemma {:induction false} FindNone(s: string, c: char, from: nat)
    requires forall j :: from <= j < |s| ==> s[j] != c
    ensures Find(s, c, from) == None
    decreases |s| - from
  {
    if from < |s| {
      FindNone(s, c, from + 1);
    }
  }

  predicate IsSeparator(c: char) {
    c == ',' || c == '}'
  }

  /** `s.find_first_of(",}", from)`. */
  function FindSeparator(s: string, from: nat): (r: Option<nat>)
    ensures r.Some? ==> from <= r.value < |s| && IsSeparator(s[r.value])
    decreases |s| - from
  {
    if from >= |s| then None
    else if IsSeparator(s[from]) then Some(from)
    else FindSeparator(s, from + 1)
  }

  lemma {:induction false} FindSeparatorIs(s: string, from: nat, i: nat)
    requires from <= i <= |s|
    requires i < |s| ==> IsSeparator(s[i])
    requires forall j :: from <= j < i ==> !IsSeparator(s[j])
    ensures FindSeparator(s, from) == if i == |s| then None else Some(i)
    decreases i - from
  {
    if from < i {
      FindSeparatorIs(s, from + 1, i);
    }
  }

  // ---------------------------------------------------------------------------
  // The scanning loop of parse

  /** What one pass of the `parse` loop found: a key, its value and the
      position the next pass starts from; or a `break`. */
  datatype Scan = Stop | Pair(key: string, value: string, next: int)

  datatype KeyScan = KeyScan(key: string, valueStart: nat)

  /** The key of `ks` lies between the first two quotes at or after `pos`,
      the first of them at `q`, and its value starts right after the first
      colon that follows them. */
  predicate KeyBetween(s: string, pos: nat, q: nat, ks: KeyScan) {
    var e := q + 1 + |ks.key|;
    && pos <= q && e + 1 < ks.valueStart <= |s|
    && s[q] == '"' && s[e] == '"' && s[q + 1 .. e] == ks.key && s[ks.valueStart - 1] == ':'
    && (forall j :: pos <= j < q ==> s[j] != '"')
    && (forall j :: q < j < e ==> s[j] != '"')
    && (forall j :: e < j < ks.valueStart - 1 ==> s[j] != ':')
  }

  /** No two quotes at or after `pos` are followed by a colon. */
  predicate NoKeyFrom(s: string, pos: nat) {
    forall q, e, c :: pos <= q < e < c < |s| && s[q] == '"' && s[e] == '"' ==> s[c] != ':'
  }

  /** Key between the next two quotes, then the next colon; the value starts
      right after the colon. None, where the loop breaks, exactly when no two
      quotes are followed by a colon. */
  function ScanKey(s: string, pos: nat): (r: Option<KeyScan>)
    ensures r.Some? ==> pos < r.value.valueStart <= |s| && exists q :: KeyBetween(s, pos, q, r.value)
    ensures r.None? <==> NoKeyFrom(s, pos)
  {
    FindFirst(s, '"', pos);
    match Find(s, '"', pos)
    case None => None
    case Some(keyStart) =>
      FindFirst(s, '"', keyStart + 1);
      match Find(s, '"', keyStart + 1)
      case None => None
      case Some(keyEnd) =>
        FindFirst(s, ':', keyEnd);
        match Find(s, ':', keyEnd)
        case None => None
        case Some(colon) =>
          assert !NoKeyFrom(s, pos) by {
            assert pos <= keyStart < keyEnd < colon < |s| && s[keyStart] == '"' && s[keyEnd] == '"';
          }
          var r := KeyScan(s[keyStart + 1 .. keyEnd], colon + 1);
          assert KeyBetween(s, pos, keyStart, r);
          Some(r)
  }

  /** `if (pos < s.length() && s[pos] == ',') pos++;` */
  function SkipComma(s: string, pos: int): (r: int)
    ensures pos <= r <= pos + 1
  {
    if 0 <= pos < |s| && s[pos] == ',' then pos + 1 else pos
  }


  /** `size_t` arithmetic: `string::npos` is 2^64 - 1. */
  const SizeModulus: int := 0x1_0000_0000_0000_0000
  const Npos: int := SizeModulus - 1

  /** One pass of the loop exactly as written. An unterminated quoted value
      leaves `val_end == npos`, and `pos = val_end + 1` wraps round to 0. */
  function StepAsWritten(s: string, pos: nat): (r: Scan)
    ensures r.Pair? ==> pos < r.next <= |s| || 0 <= r.next <= 1
  {
    match ScanKey(s, pos)
    case None => Stop
    case Some(ks) =>
      var vs := ks.valueStart;
      if CharAt(s, vs) == '"' then
        match Find(s, '"', vs + 1)
        case Some(valEnd) => Pair(ks.key, s[vs + 1 .. valEnd], SkipComma(s, valEnd + 1))
        case None => Pair(ks.key, s[vs + 1..], SkipComma(s, (Npos + 1) % SizeModulus))
      else
        var valEnd := match FindSeparator(s, vs) case Some(e) => e case None => |s|;
        Pair(ks.key, s[vs .. valEnd], SkipComma(s, valEnd))
  }

  /** A value and the position right after it (before any comma). */
  datatype ValueScan = ValueScan(value: string, end: nat)

  /** The value starting at `vs`: between quotes when it opens with one (an
      unterminated one runs to the end of the text), otherwise up to the next
      `,` or `}` or the end. */
  function ScanValue(s: string, vs: nat): (r: ValueScan)
    requires vs <= |s|
    ensures vs <= r.end <= |s|
  {
    if CharAt(s, vs) == '"' then
      match Find(s, '"', vs + 1)
      case Some(valEnd) => ValueScan(s[vs + 1 .. valEnd], valEnd + 1)
      case None => ValueScan(s[vs + 1..], |s|)
    else
      var valEnd := match FindSeparator(s, vs) case Some(e) => e case None => |s|;
      ValueScan(s[vs .. valEnd], valEnd)
  }

  /** One pass of the loop with an unterminated quoted value taken to run to
      the end of the text, where the scan then stops. Every pass moves
      strictly forward and stays within the text, so the loop ends. */
  function Step(s: string, pos: nat): (r: Scan)
    ensures r.Pair? ==> pos < r.next <= |s|
  {
    match ScanKey(s, pos)
    case None => Stop
    case Some(ks) =>
      var v := ScanValue(s, ks.valueStart);
      Pair(ks.key, v.value, SkipComma(s, v.end))
  }

  /** A pass as written differs from `Step` exactly when the value opens with
      a quote that is never closed. */
  lemma StepAgrees(s: string, pos: nat)
    ensures StepAsWritten(s, pos) != Step(s, pos) <==>
      && ScanKey(s, pos).Some?
      && CharAt(s, ScanKey(s, pos).value.valueStart) == '"'
      && Find(s, '"', ScanKey(s, pos).value.valueStart + 1).None?
  {
  }

  /** The loop of `parse` exactly as written, run for at most `fuel` passes:
      None when it has not stopped by then. */
  function RunAsWritten(s: string, pos: nat, acc: map<string, string>, fuel: nat): (r: Option<map<string, string>>)
    ensures fuel == 0 ==> r.None?
    ensures r.Some? ==> acc.Keys <= r.value.Keys
    decreases fuel
  {
    if fuel == 0 then None
    else if pos >= |s| then Some(acc)
    else match StepAsWritten(s, pos)
      case Stop => Some(acc)
      case Pair(k, v, next) => RunAsWritten(s, next, acc[k := v], fuel - 1)
  }

  /** The loop of `parse` from `pos`, storing each pair into `acc`. */
  function ParseFrom(s: string, pos: nat, acc: map<string, string>): map<string, string>
    decreases |s| - pos
  {
    if pos >= |s| then acc
    else match Step(s, pos)
      case Stop => acc
      case Pair(k, v, next) => ParseFrom(s, next, acc[k := v])
  }

  /** Every pass of the loop from `pos` meets a bare or closed quoted value,
      so each pass as written is the pass of `Step`. */
  ghost predicate ClosedFrom(s: string, pos: nat)
    decreases |s| - pos
  {
    pos >= |s| ||
    (StepAsWritten(s, pos) == Step(s, pos) &&
     match Step(s, pos)
     case Stop => true
     case Pair(_, _, next) => ClosedFrom(s, next))
  }

  /** On such a text the loop as written stops within `|s| - pos + 1` passes
      with what `ParseFrom` computes. */
  lemma {:induction false} RunAsWrittenAgrees(s: string, pos: nat, acc: map<string, string>, fuel: nat)
    requires ClosedFrom(s, pos) && fuel > 0 && pos + fuel > |s|
    ensures RunAsWritten(s, pos, acc, fuel) == Some(ParseFrom(s, pos, acc))
    decreases |s| - pos
  {
    hide Step, StepAsWritten, ScanKey, ScanValue;
    if pos < |s| {
      match Step(s, pos)
      case Stop =>
        assert StepAsWritten(s, pos) == Stop;
      case Pair(k, v, next) =>
        assert StepAsWritten(s, pos) == Pair(k, v, next);
        RunAsWrittenAgrees(s, next, acc[k := v], fuel - 1);
    }
  }

  /** The value `parse` computes. */
  function ParseSpec(json: string): map<string, string> {
    ParseFrom(Unbrace(Strip(json)), 0, map[])
  }

  /** The parsed object; `data` as the C++ class holds it. */
  datatype SimpleJson = SimpleJson(data: map<string, string>) {

    /** `get(key, default)`. */
    function Get(key: string, default: string): (r: string)
      ensures key !in data ==> r == default
      ensures key in data ==> r == data[key]
    {
      if key in data then data[key] else default
    }

    /** `getInt(key, default)`: the stored value read by `stoi`, or the default
        when the key is missing or `stoi` throws. */
    function GetInt(key: string, default: int): (r: int)
      ensures key !in data ==> r == default
      ensures key in data && StoI(data[key]).Some? ==> r == StoI(data[key]).value
      ensures key in data && StoI(data[key]).None? ==> r == default
    {
      if key in data then
        match StoI(data[key])
        case Some(n) => n
        case None => default
      else default
    }

    /** `getBool(key, default)`: true exactly for "true" and "1". */
    function GetBool(key: string, default: bool): (r: bool)
      ensures key !in data ==> r == default
      ensures key in data ==> (r <==> data[key] == "true" || data[key] == "1")
    {
      if key in data then data[key] == "true" || data[key] == "1" else default
    }

    /** `getFloat(key, default)`; `stof` stands for `std::stof`, None when it throws. */
    function GetFloat(key: string, default: real, stof: string -> Option<real>): (r: real)
      ensures key !in data ==> r == default
      ensures key in data && stof(data[key]).Some? ==> r == stof(data[key]).value
      ensures key in data && stof(data[key]).None? ==> r == default
    {
      if key in data then
        match stof(data[key])
        case Some(f) => f
        case None => default
      else default
    }

    /** `hasKey(key)`. */
    function HasKey(key: string): (r: bool)
      ensures r <==> key in data
    {
      key in data
    }
  }

  /** One pass of the loop from `pos`: a `break` when no key is found, else the
      pair is stored and the scan goes on after the value and its comma. */
  lemma ParseStep(s: string, pos: nat, data: map<string, string>)
    requires pos < |s|
    ensures ScanKey(s, pos).None? ==> ParseFrom(s, pos, data) == data
    ensures ScanKey(s, pos).Some? ==>
      var ks := ScanKey(s, pos).value;
      var v := ScanValue(s, ks.valueStart);
      ParseFrom(s, pos, data) == ParseFrom(s, SkipComma(s, v.end), data[ks.key := v.value])
  {
  }

  /** `parse(json_str)`: erase white space, drop the braces, then scan pairs
      with a moving position. */
  method Parse(json: string) returns (r: SimpleJson)
    ensures r.data == ParseSpec(json)
  {
    var s := Strip(json);
    if s != [] && s[0] == '{' {
      s := s[1..];
    }
    if s != [] && s[|s| - 1] == '}' {
      s := s[..|s| - 1];
    }
    assert s == Unbrace(Strip(json));
    var data: map<string, string> := map[];
    var pos: nat := 0;
    while pos < |s|
      invariant ParseFrom(s, pos, data) == ParseFrom(s, 0, map[])
      decreases |s| - pos
    {
      ParseStep(s, pos, data);
      var ks := ScanKey(s, pos);
      if ks.None? {
        break;
      }
      var key := ks.value.key;
      var v := ScanValue(s, ks.value.valueStart);
      data := data[key := v.value];
      var next := v.end;
      if next < |s| && s[next] == ',' {
        next := next + 1;
      }
      assert next == SkipComma(s, v.end);
      pos := next;
    }
    r := SimpleJson(data);
  }

  // ---------------------------------------------------------------------------
  // stringify

  /** A value is written bare when it reads as a boolean or starts like a number. */
  predicate IsBare(v: string) {
    v == "true" || v == "false" || (v != [] && (IsDigit(v[0]) || v[0] == '-'))
  }

  function EncodeValue(v: string): string {
    if IsBare(v) then v else "\"" + v + "\""
  }

  /** `"key":value` as `stringify` writes one entry. */
  function Entry(key: string, value: string): string {
    "\"" + key + "\":" + EncodeValue(value)
  }

  /** The entries of the pairs `ps` with commas between. */
  function Body(ps: seq<(string, string)>): string {
    if ps == [] then ""
    else if |ps| == 1 then Entry(ps[0].0, ps[0].1)
    else Entry(ps[0].0, ps[0].1) + "," + Body(ps[1..])
  }

  lemma {:induction false} BodySnoc(ps: seq<(string, string)>, k: string, v: string)
    ensures Body(ps + [(k, v)]) == if ps == [] then Entry(k, v) else Body(ps) + "," + Entry(k, v)
  {
    if |ps| == 1 {
      assert (ps + [(k, v)])[1..] == [(k, v)];
    } else if |ps| > 1 {
      assert (ps + [(k, v)])[1..] == ps[1..] + [(k, v)];
      BodySnoc(ps[1..], k, v);
    }
  }

  /** The `(key, value)` pairs of `m` for the keys `ks`, in that order. */
  function PairsOf(m: map<string, string>, ks: seq<string>): (ps: seq<(string, string)>)
    requires forall i :: 0 <= i < |ks| ==> ks[i] in m
    ensures |ps| == |ks|
  {
    if ks == [] then [] else [(ks[0], m[ks[0]])] + PairsOf(m, ks[1..])
  }


  /** `std::map<string, string>`'s order: lexicographic by character, a proper
      prefix first. */
  predicate StrLess(a: string, b: string) {
    if a == [] then b != []
    else b != [] && (a[0] < b[0] || (a[0] == b[0] && StrLess(a[1..], b[1..])))
  }

  lemma {:induction false} StrLessIrreflexive(a: string)
    ensures !StrLess(a, a)
  {
    if a != [] { StrLessIrreflexive(a[1..]); }
  }

  lemma {:induction false} StrLessTransitive(a: string, b: string, c: string)
    requires StrLess(a, b) && StrLess(b, c)
    ensures StrLess(a, c)
  {
    if a != [] && a[0] == b[0] && b[0] == c[0] {
      StrLessTransitive(a[1..], b[1..], c[1..]);
    }
  }

  lemma {:induction false} StrLessTotal(a: string, b: string)
    requires a != b
    ensures StrLess(a, b) || StrLess(b, a)
  {
    if a != [] && b != [] && a[0] == b[0] {
      StrLessTotal(a[1..], b[1..]);
    }
  }

  predicate IsLeast(k: string, ks: set<string>) {
    k in ks && forall x :: x in ks && x != k ==> StrLess(k, x)
  }

  lemma {:induction false} LeastExists(ks: set<string>)
    requires ks != {}
    ensures exists k :: IsLeast(k, ks)
    decreases |ks|
  {
    var y :| y in ks;
    if ks != {y} {
      LeastExists(ks - {y});
      var k :| IsLeast(k, ks - {y});
      if StrLess(k, y) {
        forall x | x in ks && x != k ensures StrLess(k, x) {
          if x == y {} else {}
        }
        assert IsLeast(k, ks);
      } else {
        StrLessTotal(k, y);
        forall x | x in ks && x != y ensures StrLess(y, x) {
          if x != k { StrLessTransitive(y, k, x); }
        }
        assert IsLeast(y, ks);
      }
    } else {
      assert IsLeast(y, ks);
    }
  }

  lemma LeastUnique(a: string, b: string, ks: set<string>)
    requires IsLeast(a, ks) && IsLeast(b, ks)
    ensures a == b
  {
    if a != b {
      StrLessIrreflexive(a);
      StrLessTransitive(a, b, a);
    }
  }

  ghost function Least(ks: set<string>): (k: string)
    requires ks != {}
    ensures IsLeast(k, ks)
  {
    LeastExists(ks);
    var k :| IsLeast(k, ks); k
  }

  /** The keys of a `std::map` in iteration order. */
  ghost function SortedKeys(ks: set<string>): (r: seq<string>)
    ensures |r| == |ks|
    ensures forall i :: 0 <= i < |r| ==> r[i] in ks
    decreases |ks|
  {
    if ks == {} then [] else [Least(ks)] + SortedKeys(ks - {Least(ks)})
  }

  /** A key below every key of an ascending sequence, put in front of it,
      keeps it ascending. */
  lemma SortedCons(k: string, r: seq<string>, rest: set<string>)
    requires forall x :: x in rest ==> StrLess(k, x)
    requires forall i :: 0 <= i < |r| ==> r[i] in rest
    requires forall i, j :: 0 <= i < j < |r| ==> StrLess(r[i], r[j])
    ensures forall i, j :: 0 <= i < j < |[k] + r| ==> StrLess(([k] + r)[i], ([k] + r)[j])
  {
    forall i, j | 0 <= i < j < |[k] + r| ensures StrLess(([k] + r)[i], ([k] + r)[j]) {
      if i == 0 {
        assert ([k] + r)[j] == r[j - 1];
      } else {
        assert ([k] + r)[i] == r[i - 1] && ([k] + r)[j] == r[j - 1];
      }
    }
  }

  /** Iteration visits every key once, in strictly ascending order. */
  lemma {:induction false} SortedKeysSpec(ks: set<string>)
    ensures forall k :: k in ks <==> k in SortedKeys(ks)
    ensures forall i, j :: 0 <= i < j < |SortedKeys(ks)| ==> StrLess(SortedKeys(ks)[i], SortedKeys(ks)[j])
    decreases |ks|
  {
    if ks != {} {
      var k := Least(ks);
      var rest := ks - {k};
      SortedKeysSpec(rest);
      var t := SortedKeys(rest);
      assert SortedKeys(ks) == [k] + t;
      hide SortedKeys;
      assert forall x :: x in rest ==> StrLess(k, x);
      SortedCons(k, t, rest);
      assert forall x :: x in ks <==> x in [k] + t;
    }
  }

  /** The text `stringify` produces for `m`. */
  ghost function StringifySpec(m: map<string, string>): (r: string)
    ensures |r| >= 2 && r[0] == '{' && r[|r| - 1] == '}'
    ensures m == map[] <==> r == "{}"
  {
    "{" + Body(PairsOf(m, SortedKeys(m.Keys))) + "}"
  }

  /** Taking the least remaining key extends the visited prefix of the key order. */
  lemma OrderStep(ks: set<string>, done: seq<string>, remaining: set<string>, k: string)
    requires SortedKeys(ks) == done + SortedKeys(remaining) && IsLeast(k, remaining)
    ensures SortedKeys(ks) == (done + [k]) + SortedKeys(remaining - {k})
  {
    LeastUnique(k, Least(remaining), remaining);
  }

  lemma {:induction false} PairsOfSnoc(m: map<string, string>, ks: seq<string>, k: string)
    requires (forall i :: 0 <= i < |ks| ==> ks[i] in m) && k in m
    ensures PairsOf(m, ks + [k]) == PairsOf(m, ks) + [(k, m[k])]
    decreases |ks|
  {
    if ks != [] {
      assert (ks + [k])[1..] == ks[1..] + [k];
      PairsOfSnoc(m, ks[1..], k);
    }
  }

  /** Appending key `k`'s entry to the text written for `done`. */
  lemma TextStep(m: map<string, string>, done: seq<string>, k: string, text: string)
    requires (forall i :: 0 <= i < |done| ==> done[i] in m) && k in m
    requires text == "{" + Body(PairsOf(m, done))
    ensures (if done == [] then text else text + ",") + Entry(k, m[k]) == "{" + Body(PairsOf(m, done + [k]))
  {
    var ps := PairsOf(m, done);
    PairsOfSnoc(m, done, k);
    BodySnoc(ps, k, m[k]);
    if done != [] {
      Assoc("{", Body(ps) + ",", Entry(k, m[k]));
      Assoc("{", Body(ps), ",");
    }
  }

  lemma Assoc(a: string, b: string, c: string)
    ensures a + (b + c) == (a + b) + c
  {
  }

  /** One pass of the `stringify` loop keeps its invariant. */
  lemma StringifyStep(m: map<string, string>, done: seq<string>, remaining: set<string>, k: string, text: string)
    requires remaining <= m.Keys && (forall i :: 0 <= i < |done| ==> done[i] in m)
    requires SortedKeys(m.Keys) == done + SortedKeys(remaining) && IsLeast(k, remaining)
    requires text == "{" + Body(PairsOf(m, done))
    ensures k in m && forall i :: 0 <= i < |done + [k]| ==> (done + [k])[i] in m
    ensures SortedKeys(m.Keys) == (done + [k]) + SortedKeys(remaining - {k})
    ensures (if done == [] then text else text + ",") + Entry(k, m[k]) == "{" + Body(PairsOf(m, done + [k]))
  {
    OrderStep(m.Keys, done, remaining, k);
    TextStep(m, done, k, text);
  }

  /** `stringify(obj)`: `{`, then `"key":value` for every key in map order with
      commas between, then `}`. */
  method Stringify(m: map<string, string>) returns (out: string)
    ensures out == StringifySpec(m)
  {
    out := "{";
    var first := true;
    var remaining := m.Keys;
    ghost var done: seq<string> := [];
    while remaining != {}
      invariant remaining <= m.Keys
      invariant forall i :: 0 <= i < |done| ==> done[i] in m
      invariant SortedKeys(m.Keys) == done + SortedKeys(remaining)
      invariant first <==> done == []
      invariant out == "{" + Body(PairsOf(m, done))
      decreases |remaining|
    {
      LeastExists(remaining);
      var k :| IsLeast(k, remaining);
      StringifyStep(m, done, remaining, k, out);
      var entry := Entry(k, m[k]);
      if !first {
        out := out + ",";
      }
      first := false;
      out := out + entry;
      done := done + [k];
      remaining := remaining - {k};
    }
    assert done == SortedKeys(m.Keys);
    out := out + "}";
  }

  // ---------------------------------------------------------------------------
  // parse(stringify(m)) == m

  /** Keys and values that survive the trip: no quote, comma, closing brace
      or erased white space. */
  predicate Clean(t: string) {
    forall i :: 0 <= i < |t| ==> t[i] != '"' && t[i] != ',' && t[i] != '}' && !IsErased(t[i])
  }

  predicate AllClean(ps: seq<(string, string)>) {
    ps == [] || (Clean(ps[0].0) && Clean(ps[0].1) && AllClean(ps[1..]))
  }

  /** Storing the pairs one after the other: a later key overwrites an earlier one. */
  function Updates(acc: map<string, string>, ps: seq<(string, string)>): map<string, string>
    decreases |ps|
  {
    if ps == [] then acc else Updates(acc[ps[0].0 := ps[0].1], ps[1..])
  }

  /** `s` holds `t` from position `n` on. */
  predicate HoldsAt(s: string, n: nat, t: string) {
    n + |t| <= |s| && forall i {:trigger t[i]} :: 0 <= i < |t| ==> s[n + i] == t[i]
  }

  lemma CharOf(s: string, n: nat, t: string, i: nat)
    requires HoldsAt(s, n, t) && i < |t|
    ensures s[n + i] == t[i]
  {
  }

  lemma HoldsAtSlice(s: string, n: nat, t: string)
    requires HoldsAt(s, n, t)
    ensures s[n .. n + |t|] == t
  {
  }

  /** Text held at `n` holds each of its two halves. */
  lemma HoldsSplit(s: string, n: nat, a: string, b: string)
    requires HoldsAt(s, n, a + b)
    ensures HoldsAt(s, n, a) && HoldsAt(s, n + |a|, b)
  {
    forall i | 0 <= i < |a| ensures s[n + i] == a[i] {
      assert (a + b)[i] == a[i];
    }
    forall i | 0 <= i < |b| ensures s[n + |a| + i] == b[i] {
      assert s[n + (|a| + i)] == (a + b)[|a| + i];
    }
  }

  /** The key scan over `"k":` at `n`. */
  lemma ScanKeyAt(s: string, n: nat, k: string)
    requires Clean(k) && HoldsAt(s, n + 1, k) && n + |k| + 3 <= |s|
    requires s[n] == '"' && s[n + 1 + |k|] == '"' && s[n + 2 + |k|] == ':'
    ensures ScanKey(s, n) == Some(KeyScan(k, n + 3 + |k|))
  {
    FindIs(s, '"', n, n);
    forall j | n + 1 <= j < n + 1 + |k| ensures s[j] != '"' {
      assert s[n + 1 + (j - n - 1)] == k[j - n - 1];
    }
    FindIs(s, '"', n + 1, n + 1 + |k|);
    FindIs(s, ':', n + 1 + |k|, n + 2 + |k|);
    HoldsAtSlice(s, n + 1, k);
  }

  /** A bare value at `vs`, followed by a comma or the end of the text. */
  lemma BareValueAt(s: string, vs: nat, v: string)
    requires Clean(v) && v != [] && v[0] != '"' && HoldsAt(s, vs, v)
    requires vs + |v| == |s| || s[vs + |v|] == ','
    ensures ScanValue(s, vs) == ValueScan(v, vs + |v|)
  {
    CharOf(s, vs, v, 0);
    forall j | vs <= j < vs + |v| ensures !IsSeparator(s[j]) {
      assert s[vs + (j - vs)] == v[j - vs];
    }
    FindSeparatorIs(s, vs, vs + |v|);
    HoldsAtSlice(s, vs, v);
  }

  /** A quoted value at `vs`. */
  lemma QuotedValueAt(s: string, vs: nat, v: string)
    requires Clean(v) && vs + |v| + 2 <= |s| && HoldsAt(s, vs + 1, v)
    requires s[vs] == '"' && s[vs + 1 + |v|] == '"'
    ensures ScanValue(s, vs) == ValueScan(v, vs + 2 + |v|)
  {
    forall j | vs + 1 <= j < vs + 1 + |v| ensures s[j] != '"' {
      assert s[vs + 1 + (j - vs - 1)] == v[j - vs - 1];
    }
    FindIs(s, '"', vs + 1, vs + 1 + |v|);
    HoldsAtSlice(s, vs + 1, v);
  }

  /** The value part of an entry, as `EncodeValue` wrote it at `vs`. */
  lemma EncodedValueAt(s: string, vs: nat, v: string)
    requires Clean(v) && HoldsAt(s, vs, EncodeValue(v))
    requires vs + |EncodeValue(v)| == |s| || s[vs + |EncodeValue(v)|] == ','
    ensures ScanValue(s, vs) == ValueScan(v, vs + |EncodeValue(v)|)
  {
    if IsBare(v) {
      assert v[0] != '"' by {
        if v == "true" || v == "false" {
          assert v[0] == 't' || v[0] == 'f';
        }
      }
      BareValueAt(s, vs, v);
    } else {
      HoldsSplit(s, vs, "\"" + v, "\"");
      HoldsSplit(s, vs, "\"", v);
      CharOf(s, vs, "\"", 0);
      CharOf(s, vs + 1 + |v|, "\"", 0);
      QuotedValueAt(s, vs, v);
    }
  }

  /** A value `EncodeValue` wrote is bare, or its opening quote is closed. */
  lemma EncodedValueClosed(s: string, vs: nat, v: string)
    requires Clean(v) && HoldsAt(s, vs, EncodeValue(v))
    ensures CharAt(s, vs) == '"' ==> Find(s, '"', vs + 1).Some?
  {
    if IsBare(v) {
      assert v[0] != '"' by {
        if v == "true" || v == "false" {
          assert v[0] == 't' || v[0] == 'f';
        }
      }
      CharOf(s, vs, v, 0);
    } else {
      HoldsSplit(s, vs, "\"" + v, "\"");
      CharOf(s, vs + 1 + |v|, "\"", 0);
      FindFirst(s, '"', vs + 1);
    }
  }

  /** The scan reads the entry `Entry(k, v)` held at `n`, followed by a comma
      or the end of the text, and moves past both. */
  lemma StepOverEntry(s: string, n: nat, k: string, v: string)
    requires Clean(k) && Clean(v) && HoldsAt(s, n, Entry(k, v))
    requires n + |Entry(k, v)| == |s| || s[n + |Entry(k, v)|] == ','
    ensures Step(s, n) == Pair(k, v, SkipComma(s, n + |Entry(k, v)|))
    ensures StepAsWritten(s, n) == Step(s, n)
  {
    hide ScanKey, ScanValue, Step, StepAsWritten;
    EntryKeyAt(s, n, k, v);
    EncodedValueAt(s, n + 3 + |k|, v);
    EncodedValueClosed(s, n + 3 + |k|, v);
    StepAgrees(s, n);
    StepUnfold(s, n);
  }

  /** The key of an entry held at `n`, and its encoded value after it. */
  lemma EntryKeyAt(s: string, n: nat, k: string, v: string)
    requires Clean(k) && HoldsAt(s, n, Entry(k, v))
    ensures ScanKey(s, n) == Some(KeyScan(k, n + 3 + |k|))
    ensures HoldsAt(s, n + 3 + |k|, EncodeValue(v))
  {
    hide ScanKey;
    HoldsSplit(s, n, "\"" + k + "\":", EncodeValue(v));
    HoldsSplit(s, n, "\"" + k, "\":");
    HoldsSplit(s, n, "\"", k);
    CharOf(s, n, "\"", 0);
    CharOf(s, n + 1 + |k|, "\":", 0);
    CharOf(s, n + 1 + |k|, "\":", 1);
    ScanKeyAt(s, n, k);
  }

  /** A pass after a key is found: the value scan and the comma. */
  lemma StepUnfold(s: string, n: nat)
    requires ScanKey(s, n).Some?
    ensures Step(s, n) == Pair(ScanKey(s, n).value.key, ScanValue(s, ScanKey(s, n).value.valueStart).value,
      SkipComma(s, ScanValue(s, ScanKey(s, n).value.valueStart).end))
  {
  }

  /** One pass of the loop over an entry: its pair is stored and the scan
      moves on past it. */
  lemma AdvanceEntry(s: string, n: nat, k: string, v: string, acc: map<string, string>)
    requires Clean(k) && Clean(v) && HoldsAt(s, n, Entry(k, v))
    requires n + |Entry(k, v)| == |s| || s[n + |Entry(k, v)|] == ','
    ensures ParseFrom(s, n, acc) == ParseFrom(s, SkipComma(s, n + |Entry(k, v)|), acc[k := v])
  {
    hide ScanKey, ScanValue;
    StepOverEntry(s, n, k, v);
  }

  /** At the end of the text the loop stops at once. */
  lemma ParseAtEnd(s: string, n: nat, acc: map<string, string>)
    requires n >= |s|
    ensures ParseFrom(s, n, acc) == acc
  {
  }

  /** The last entry: its pair is stored and the scan reaches the end. */
  lemma ParseLastEntry(s: string, n: nat, ps: seq<(string, string)>, acc: map<string, string>)
    requires |ps| == 1 && AllClean(ps) && HoldsAt(s, n, Body(ps)) && n + |Body(ps)| == |s|
    ensures ParseFrom(s, n, acc) == Updates(acc, ps)
  {
    hide ParseFrom;
    var k, v := ps[0].0, ps[0].1;
    assert Updates(acc, ps) == Updates(acc[k := v], ps[1..]);
    AdvanceEntry(s, n, k, v, acc);
    ParseAtEnd(s, |s|, acc[k := v]);
  }

  /** The text of two or more entries: the first entry, a comma, the rest. */
  lemma FirstEntryText(s: string, n: nat, ps: seq<(string, string)>)
    requires |ps| > 1 && AllClean(ps) && HoldsAt(s, n, Body(ps)) && n + |Body(ps)| == |s|
    ensures var e := Entry(ps[0].0, ps[0].1);
      && Clean(ps[0].0) && Clean(ps[0].1) && AllClean(ps[1..])
      && HoldsAt(s, n, e) && s[n + |e|] == ','
      && HoldsAt(s, n + |e| + 1, Body(ps[1..])) && n + |e| + 1 + |Body(ps[1..])| == |s|
  {
    hide Entry, Clean, HoldsAt;
    var e, rest := Entry(ps[0].0, ps[0].1), Body(ps[1..]);
    assert Body(ps) == e + "," + rest;
    assert Clean(ps[0].0) && Clean(ps[0].1) && AllClean(ps[1..]);
    hide Body, AllClean;
    HoldsSplit(s, n, e + ",", rest);
    HoldsSplit(s, n, e, ",");
    CharOf(s, n + |e|, ",", 0);
  }

  /** An entry followed by a comma and more entries: its pair is stored and
      the scan moves on to the remaining entries. */
  lemma ParseFirstEntry(s: string, n: nat, ps: seq<(string, string)>, acc: map<string, string>)
    requires |ps| > 1 && AllClean(ps) && HoldsAt(s, n, Body(ps)) && n + |Body(ps)| == |s|
    ensures var next := n + |Entry(ps[0].0, ps[0].1)| + 1;
      && AllClean(ps[1..]) && HoldsAt(s, next, Body(ps[1..])) && next + |Body(ps[1..])| == |s|
      && ParseFrom(s, n, acc) == ParseFrom(s, next, acc[ps[0].0 := ps[0].1])
      && Updates(acc, ps) == Updates(acc[ps[0].0 := ps[0].1], ps[1..])
  {
    hide ParseFrom;
    var k, v := ps[0].0, ps[0].1;
    assert Updates(acc, ps) == Updates(acc[k := v], ps[1..]);
    hide Updates;
    FirstEntryText(s, n, ps);
    hide Body, AllClean;
    AdvanceEntry(s, n, k, v, acc);
  }

  /** Scanning the entries of `ps` held from `n` to the end of the text stores
      their pairs in order. */
  lemma {:induction false} ParseEntries(s: string, n: nat, ps: seq<(string, string)>, acc: map<string, string>)
    requires AllClean(ps) && HoldsAt(s, n, Body(ps)) && n + |Body(ps)| == |s|
    ensures ParseFrom(s, n, acc) == Updates(acc, ps)
    decreases |ps|
  {
    hide ParseFrom;
    if ps == [] {
      ParseAtEnd(s, n, acc);
    } else if |ps| == 1 {
      ParseLastEntry(s, n, ps, acc);
    } else {
      ParseFirstEntry(s, n, ps, acc);
      ParseEntries(s, n + |Entry(ps[0].0, ps[0].1)| + 1, ps[1..], acc[ps[0].0 := ps[0].1]);
    }
  }

  /** Every value in the text of clean entries is bare or closed, so the loop
      as written takes the same passes over it. */
  lemma {:induction false} ClosedEntries(s: string, n: nat, ps: seq<(string, string)>)
    requires AllClean(ps) && HoldsAt(s, n, Body(ps)) && n + |Body(ps)| == |s|
    ensures ClosedFrom(s, n)
    decreases |ps|
  {
    hide ClosedFrom;
    if ps == [] {
      ClosedPass(s, n, n);
    } else if |ps| == 1 {
      ClosedLastEntry(s, n, ps);
    } else {
      ClosedFirstEntry(s, n, ps);
      ClosedEntries(s, n + |Entry(ps[0].0, ps[0].1)| + 1, ps[1..]);
    }
  }

  /** A pass as written that agrees with `Step` and moves on to `next`. */
  lemma ClosedPass(s: string, pos: nat, next: nat)
    requires pos >= |s| || (Step(s, pos).Pair? && Step(s, pos).next == next
      && StepAsWritten(s, pos) == Step(s, pos) && ClosedFrom(s, next))
    ensures ClosedFrom(s, pos)
  {
  }

  /** The last entry is read alike by both passes, which reach the end. */
  lemma ClosedLastEntry(s: string, n: nat, ps: seq<(string, string)>)
    requires |ps| == 1 && AllClean(ps) && HoldsAt(s, n, Body(ps)) && n + |Body(ps)| == |s|
    ensures ClosedFrom(s, n)
  {
    hide ClosedFrom, Step, StepAsWritten;
    var k, v := ps[0].0, ps[0].1;
    assert Clean(k) && Clean(v) && Body(ps) == Entry(k, v);
    hide AllClean, Body;
    StepOverEntry(s, n, k, v);
    ClosedPass(s, |s|, |s|);
    ClosedPass(s, n, |s|);
  }

  /** The first of several entries is read alike by both passes, which move
      on to the rest. */
  lemma ClosedFirstEntry(s: string, n: nat, ps: seq<(string, string)>)
    requires |ps| > 1 && AllClean(ps) && HoldsAt(s, n, Body(ps)) && n + |Body(ps)| == |s|
    ensures var next := n + |Entry(ps[0].0, ps[0].1)| + 1;
      && AllClean(ps[1..]) && HoldsAt(s, next, Body(ps[1..])) && next + |Body(ps[1..])| == |s|
      && (ClosedFrom(s, next) ==> ClosedFrom(s, n))
  {
    hide ClosedFrom, Step, StepAsWritten;
    FirstEntryText(s, n, ps);
    hide AllClean, Body;
    StepOverEntry(s, n, ps[0].0, ps[0].1);
    if ClosedFrom(s, n + |Entry(ps[0].0, ps[0].1)| + 1) {
      ClosedPass(s, n, n + |Entry(ps[0].0, ps[0].1)| + 1);
    }
  }

  /** Storing the pairs of `m` for `ks` overrides `acc` at exactly those keys. */
  lemma {:induction false} UpdatesPairsOf(m: map<string, string>, ks: seq<string>, acc: map<string, string>)
    requires forall i :: 0 <= i < |ks| ==> ks[i] in m
    ensures Updates(acc, PairsOf(m, ks)) == acc + map x | x in ks :: m[x]
    decreases |ks|
  {
    if ks != [] {
      var k, ps := ks[0], PairsOf(m, ks[1..]);
      assert PairsOf(m, ks) == [(k, m[k])] + ps;
      assert Updates(acc, [(k, m[k])] + ps) == Updates(acc[k := m[k]], ps) by {
        assert ([(k, m[k])] + ps)[1..] == ps;
      }
      hide Updates, PairsOf;
      UpdatesPairsOf(m, ks[1..], acc[k := m[k]]);
      assert ks == [k] + ks[1..];
      UpdateThenRest(acc, m, k, ks[1..]);
    }
  }

  /** Storing `k` and then the keys `t` is storing the keys `[k] + t`. */
  lemma UpdateThenRest(acc: map<string, string>, m: map<string, string>, k: string, t: seq<string>)
    requires k in m && forall i :: 0 <= i < |t| ==> t[i] in m
    ensures acc[k := m[k]] + (map x | x in t :: m[x]) == acc + (map x | x in [k] + t :: m[x])
  {
    assert forall x :: x in [k] + t <==> x == k || x in t;
  }

  lemma {:induction false} PairsOfClean(m: map<string, string>, ks: seq<string>)
    requires forall i :: 0 <= i < |ks| ==> ks[i] in m
    requires forall k :: k in m ==> Clean(k) && Clean(m[k])
    ensures AllClean(PairsOf(m, ks))
    decreases |ks|
  {
    if ks != [] {
      PairsOfClean(m, ks[1..]);
    }
  }

  /** No character `parse` erases appears in the text of clean entries. */
  lemma {:induction false} BodyUnerased(ps: seq<(string, string)>)
    requires AllClean(ps)
    ensures forall i :: 0 <= i < |Body(ps)| ==> !IsErased(Body(ps)[i])
    decreases |ps|
  {
    if ps != [] {
      var e := Entry(ps[0].0, ps[0].1);
      assert forall i :: 0 <= i < |e| ==> !IsErased(e[i]);
      BodyUnerased(ps[1..]);
    }
  }

  lemma UnbraceBraced(body: string)
    ensures Unbrace("{" + body + "}") == body
  {
    var s := "{" + body + "}";
    assert s[1..] == body + "}";
    assert (body + "}")[..|body|] == body;
  }

  /** Braces add no character `parse` erases. */
  lemma BracedUnerased(body: string)
    requires forall i :: 0 <= i < |body| ==> !IsErased(body[i])
    ensures forall i :: 0 <= i < |"{" + body + "}"| ==> !IsErased(("{" + body + "}")[i])
  {
    var s := "{" + body + "}";
    forall i | 0 <= i < |s| ensures !IsErased(s[i]) {
      if 0 < i < |s| - 1 {
        assert s[i] == body[i - 1];
      }
    }
  }

  /** The text between the braces of `stringify`'s output is the body. */
  lemma Unbraced(body: string)
    requires forall i :: 0 <= i < |body| ==> !IsErased(body[i])
    ensures Unbrace(Strip("{" + body + "}")) == body
  {
    BracedUnerased(body);
    StripNoOp("{" + body + "}");
    UnbraceBraced(body);
  }

  /** Parsing the braced text of clean entries stores their pairs in order. */
  lemma ParseBraced(ps: seq<(string, string)>)
    requires AllClean(ps)
    ensures ParseSpec("{" + Body(ps) + "}") == Updates(map[], ps)
  {
    BodyUnerased(ps);
    Unbraced(Body(ps));
    ParseEntries(Body(ps), 0, ps, map[]);
  }

  /** Storing the pairs of every key of `m`, in map order, rebuilds `m`. */
  lemma UpdatesEveryKey(m: map<string, string>)
    ensures Updates(map[], PairsOf(m, SortedKeys(m.Keys))) == m
  {
    var ks := SortedKeys(m.Keys);
    SortedKeysSpec(m.Keys);
    UpdatesPairsOf(m, ks, map[]);
  }

  /** `parse(stringify(m)) == m` whenever no key or value holds a quote, a
      comma, a closing brace or white space. */
  lemma ParseStringify(m: map<string, string>)
    requires forall k :: k in m ==> Clean(k) && Clean(m[k])
    ensures ParseSpec(StringifySpec(m)) == m
  {
    var ks := SortedKeys(m.Keys);
    PairsOfClean(m, ks);
    ParseBraced(PairsOf(m, ks));
    UpdatesEveryKey(m);
  }

  /** The loop as written stops on the text `stringify` writes for a clean
      map and gives the map back. */
  lemma ParseStringifyAsWritten(m: map<string, string>)
    requires forall k :: k in m ==> Clean(k) && Clean(m[k])
    ensures var s := Unbrace(Strip(StringifySpec(m)));
      RunAsWritten(s, 0, map[], |s| + 1) == Some(m)
  {
    var ps := PairsOf(m, SortedKeys(m.Keys));
    PairsOfClean(m, SortedKeys(m.Keys));
    StringifiedBody(m);
    ParseStringify(m);
    hide StringifySpec, Strip, Unbrace, Body, PairsOf, SortedKeys;
    AsWrittenOverEntries(ps);
  }

  /** The text the loop scans for `stringify`'s output is the body. */
  lemma StringifiedBody(m: map<string, string>)
    requires forall k :: k in m ==> Clean(k) && Clean(m[k])
    ensures Unbrace(Strip(StringifySpec(m))) == Body(PairsOf(m, SortedKeys(m.Keys)))
  {
    var ps := PairsOf(m, SortedKeys(m.Keys));
    PairsOfClean(m, SortedKeys(m.Keys));
    BodyUnerased(ps);
    Unbraced(Body(ps));
  }

  /** The loop as written over the text of clean entries computes `ParseFrom`. */
  lemma AsWrittenOverEntries(ps: seq<(string, string)>)
    requires AllClean(ps)
    ensures RunAsWritten(Body(ps), 0, map[], |Body(ps)| + 1) == Some(ParseFrom(Body(ps), 0, map[]))
  {
    var body := Body(ps);
    hide ParseFrom, RunAsWritten, Body;
    assert HoldsAt(body, 0, body);
    ClosedEntries(body, 0, ps);
    RunAsWrittenAgrees(body, 0, map[], |body| + 1);
  }

  // ---------------------------------------------------------------------------
  // The unterminated-value case

  /** A command cut short inside a quoted value. */
  const Truncated: string := "{\"a\":\"b}"

  /** The text the loop scans for it. */
  lemma TruncatedBody()
    ensures Unbrace(Strip(Truncated)) == "\"a\":\"b"
  {
    assert Strip(Truncated) == Truncated by {
      StripNoOp(Truncated);
    }
    hide Strip;
    assert Truncated[1..] == "\"a\":\"b}";
  }

  /** As written, one pass over the truncated command records `a` and sets the
      position back to 0, the state it started from: the loop never ends. */
  lemma UnterminatedValueLoops()
    ensures StepAsWritten("\"a\":\"b", 0) == Pair("a", "b", 0)
  {
    var s := "\"a\":\"b";
    assert HoldsAt(s, 1, "a");
    ScanKeyAt(s, 0, "a");
    FindNone(s, '"', 5);
  }

  /** So the loop as written never stops on it, however many passes it is
      given. */
  lemma {:induction false} UnterminatedValueNeverStops(acc: map<string, string>, fuel: nat)
    ensures RunAsWritten("\"a\":\"b", 0, acc, fuel) == None
    decreases fuel
  {
    if fuel > 0 {
      UnterminatedValueLoops();
      UnterminatedValueNeverStops(acc["a" := "b"], fuel - 1);
    }
  }

  /** With the value running to the end of the text, one pass reads the pair
      and reaches the end. */
  lemma UnterminatedValueStep()
    ensures Step("\"a\":\"b", 0) == Pair("a", "b", 6)
  {
    var s := "\"a\":\"b";
    assert HoldsAt(s, 1, "a");
    ScanKeyAt(s, 0, "a");
    FindNone(s, '"', 5);
  }

  /** So the same command parses to `{a: b}`. */
  lemma UnterminatedValueCorrected()
    ensures ParseSpec(Truncated) == map["a" := "b"]
  {
    TruncatedBody();
    UnterminatedValueStep();
  }
}
