/**
 * The raw-audio mimetype parser of the audio-input stream handler.
 *
 * A mimetype is accepted only with the prefix `audio/L8;` (one byte per
 * sample) or `audio/L16;` (two bytes per sample), followed by comma-separated
 * `name=value` parameters. `rate=` is required, `channels=` defaults to 1,
 * unknown parameters are skipped and a repeated parameter keeps its last
 * value. Integer values are read as `strtol` reads them (leading white space,
 * an optional sign, decimal digits); a value with no digits or outside the
 * range of a `long`, taken as 64 bits, is a failure.
 */
module Mimetype {
  import opened Wrappers
  import opened Pcm

  const L8Prefix: string := "audio/L8;"
  const L16Prefix: string := "audio/L16;"
  const ChannelsKey: string := "channels="
  const RateKey: string := "rate="

  const LongMin: int := -0x8000_0000_0000_0000
  const LongMax: int := 0x7FFF_FFFF_FFFF_FFFF

  predicate HasPrefix(s: string, p: string) {
    |p| <= |s| && s[..|p|] == p
  }

  predicate IsSpace(c: char) {
    c == ' ' || c == '\t' || c == '\n' || c == '\r' || c == '\U{0B}' || c == '\U{0C}'
  }

  predicate IsDigit(c: char) {
    '0' <= c <= '9'
  }

  /** Length of the longest prefix of `s` whose characters all satisfy `p`. */
  function Run(s: string, p: char -> bool): (n: nat)
    ensures n <= |s|
    ensures forall i :: 0 <= i < n ==> p(s[i])
    ensures n < |s| ==> !p(s[n])
  {
    if s == [] || !p(s[0]) then 0 else 1 + Run(s[1..], p)
  }

  /** The value of one decimal digit. */
  function Digit(c: char): nat {
    if IsDigit(c) then c as int - '0' as int else 0
  }

  /** The value of the decimal digits `ds` read after the value `acc` of the digits before them. */
  function DigitsValue(acc: nat, ds: string): nat
    decreases |ds|
  {
    if ds == [] then acc else DigitsValue(10 * acc + Digit(ds[0]), ds[1..])
  }

  /**
   * `strtol(s, &end, 10)` with its `errno` check: the value read and the
   * number of characters consumed, or None when no digit follows the
   * optional white space and sign, or when the value does not fit a `long`.
   */
  function Strtol(s: string): (r: Option<(int, nat)>)
    ensures r.Some? ==> 0 < r.value.1 <= |s| && LongMin <= r.value.0 <= LongMax
    ensures r.Some? ==> NoComma(s[..r.value.1])
  {
    var start := DigitsStart(s);
    var d := Run(s[start..], IsDigit);
    DigitsNoComma(s, start, s[start..], d);
    NumberRead(Negative(s), s[start..start + d], start + d)
  }

  /**
   * The outcome of reading the decimal digits `digits`, negated when `neg`,
   * with the number ending at `end`: nothing when there is no digit or the
   * value does not fit a `long`.
   */
  function NumberRead(neg: bool, digits: string, end: nat): Option<(int, nat)> {
    var v := if neg then -(DigitsValue(0, digits) as int) else DigitsValue(0, digits);
    if digits == [] || v < LongMin || v > LongMax then None else Some((v, end))
  }

  /** White space and a sign followed by digits hold no comma. */
  lemma DigitsNoComma(s: string, start: nat, digits: string, d: nat)
    requires start + d <= |s| && NoComma(s[..start]) && digits == s[start..]
    requires forall i :: 0 <= i < d ==> IsDigit(digits[i])
    ensures NoComma(s[..start + d])
  {
    var p := s[..start + d];
    forall i | 0 <= i < |p|
      ensures p[i] != ','
    {
      if i < start {
        assert p[i] == s[..start][i];
      } else {
        assert p[i] == digits[i - start];
      }
    }
  }

  /** Where the digits of a `strtol` number start: after leading white space and one optional sign. */
  function DigitsStart(s: string): (k: nat)
    ensures k <= |s|
    ensures NoComma(s[..k])
  {
    var w := Run(s, IsSpace);
    if w < |s| && (s[w] == '-' || s[w] == '+') then w + 1 else w
  }

  /** Whether the optional sign of a `strtol` number is a minus. */
  predicate Negative(s: string) {
    var w := Run(s, IsSpace);
    w < |s| && s[w] == '-'
  }

  /** The index of the first comma in `s` (`strchr(s, ',')`), if any. */
  function FindComma(s: string): (r: Option<nat>)
    ensures r.Some? ==> r.value < |s| && s[r.value] == ',' && NoComma(s[..r.value])
    ensures r.None? ==> NoComma(s)
  {
    if s == [] then None
    else if s[0] == ',' then Some(0)
    else match FindComma(s[1..])
      case None => None
      case Some(i) => Some(i + 1)
  }

  /**
   * One parameter at the start of `s`: `channels=` or `rate=` updates the
   * matching value, anything else is skipped. Yields the updated (rate,
   * channels) and the number of characters up to the end of the value read,
   * or None when the value is malformed.
   */
  function ParseParam(s: string, rate: int, channels: int): (r: Option<(int, int, nat)>)
    ensures r.Some? ==> r.value.2 <= |s| && NoComma(s[..r.value.2])
  {
    if HasPrefix(s, ChannelsKey) then
      match Strtol(s[9..])
      case None => None
      case Some((v, n)) => KeyThenValue(s, ChannelsKey, n); Some((rate, v, 9 + n))
    else if HasPrefix(s, RateKey) then
      match Strtol(s[5..])
      case None => None
      case Some((v, n)) => KeyThenValue(s, RateKey, n); Some((v, channels, 5 + n))
    else
      Some((rate, channels, 0))
  }

  /**
   * The parameter loop: parse the parameter at the start of `s`, then go on
   * from the end of what was read.
   */
  function ScanParams(s: string, rate: int, channels: int): Option<(int, int)>
    decreases |s|, 1
  {
    match ParseParam(s, rate, channels)
    case None => None
    case Some((rate', channels', k)) => ScanNext(s[k..], rate', channels')
  }

  /** The loop's advance: move to the character after the next comma, or stop when no comma is left. */
  function ScanNext(s: string, rate: int, channels: int): Option<(int, int)>
    decreases |s|, 0
  {
    match FindComma(s)
    case None => Some((rate, channels))
    case Some(i) => ScanParams(s[i + 1..], rate, channels)
  }

  /** The parser as written: the format, or None for an unsupported prefix, a malformed value or a missing rate. */
  function ParseMimetype(m: string): (r: Option<Format>)
    ensures r.Some? ==> (HasPrefix(m, L8Prefix) && r.value.bps == 1) || (HasPrefix(m, L16Prefix) && r.value.bps == 2)
    ensures !HasPrefix(m, L8Prefix) && !HasPrefix(m, L16Prefix) ==> r.None?
    ensures r.Some? ==> r.value.rate != -1
  {
    var scanned :=
      if HasPrefix(m, L8Prefix) then ScanParams(m[9..], -1, 1)
      else if HasPrefix(m, L16Prefix) then ScanParams(m[10..], -1, 1)
      else None;
    match scanned
    case None => None
    case Some((rate, channels)) =>
      if rate == -1 then None
      else Some(Format(rate, channels, if HasPrefix(m, L8Prefix) then 1 else 2))
  }

  /**
   * The parser with the check the rest of the buffer relies on: a format
   * whose rate or channel count is not positive is refused as well.
   */
  function ParseMimetypeChecked(m: string): (r: Option<Format>)
    ensures r.Some? ==> ValidFormat(r.value) && r == ParseMimetype(m)
    ensures r.None? && ParseMimetype(m).Some? ==> ParseMimetype(m).value.rate <= 0 || ParseMimetype(m).value.channels <= 0
  {
    match ParseMimetype(m)
    case None => None
    case Some(f) => if f.rate > 0 && f.channels > 0 then Some(f) else None
  }

  /*
   * The reference reading of the parameter list: cut it at every comma; each
   * piece that names `rate=` or `channels=` must carry a well-formed value,
   * and the last piece naming a key gives that key's value.
   */

  /** `s` cut at every comma. */
  function Split(s: string): (segs: seq<string>)
    ensures |segs| >= 1
    ensures forall j :: 0 <= j < |segs| ==> NoComma(segs[j])
    decreases |s|
  {
    match FindComma(s)
    case None => [s]
    case Some(i) => [s[..i]] + Split(s[i + 1..])
  }

  /** The pieces put back together with a comma between each two. */
  function Join(segs: seq<string>): string
    requires |segs| >= 1
  {
    if |segs| == 1 then segs[0] else segs[0] + "," + Join(segs[1..])
  }

  /** Cutting at every comma loses nothing: the pieces joined by commas are the text. */
  lemma {:induction false} SplitJoin(s: string)
    ensures Join(Split(s)) == s
    decreases |s|
  {
    match FindComma(s)
    case None =>
    case Some(i) =>
      SplitAtComma(s, i);
      SplitJoin(s[i + 1..]);
      assert s == s[..i] + "," + s[i + 1..];
  }

  predicate NoComma(s: string) {
    forall i :: 0 <= i < |s| ==> s[i] != ','
  }

  /** A key followed by a comma-free run of its value holds no comma. */
  lemma KeyThenValue(s: string, key: string, n: nat)
    requires key == RateKey || key == ChannelsKey
    requires HasPrefix(s, key) && n <= |s| - |key| && NoComma(s[|key|..][..n])
    ensures NoComma(s[..|key| + n])
  {
    assert s[..|key| + n] == key + s[|key|..][..n];
  }

  /** The value a piece gives to `key`, if it names that key and its value is well formed. */
  function SegmentValue(seg: string, key: string): Option<int> {
    if HasPrefix(seg, key) then
      match Strtol(seg[|key|..])
      case None => None
      case Some((v, _)) => Some(v)
    else None
  }

  /** A piece is acceptable unless it names `channels=` or `rate=` with a malformed value. */
  predicate SegmentOk(seg: string) {
    (HasPrefix(seg, ChannelsKey) ==> Strtol(seg[9..]).Some?) &&
    (HasPrefix(seg, RateKey) ==> Strtol(seg[5..]).Some?)
  }

  predicate AllOk(segs: seq<string>) {
    forall j :: 0 <= j < |segs| ==> SegmentOk(segs[j])
  }

  /** The value given to `key` by the last piece that names it. */
  function LastValue(segs: seq<string>, key: string): Option<int> {
    if segs == [] then None
    else
      match LastValue(segs[1..], key)
      case Some(v) => Some(v)
      case None => SegmentValue(segs[0], key)
  }

  /** The text after the `audio/L8;` or `audio/L16;` prefix. */
  function ParamText(m: string): string
    requires HasPrefix(m, L8Prefix) || HasPrefix(m, L16Prefix)
  {
    if HasPrefix(m, L8Prefix) then m[|L8Prefix|..] else m[|L16Prefix|..]
  }

  /** The reference parse: the format the mimetype describes under the reading above. */
  function ReferenceParse(m: string): Option<Format> {
    if HasPrefix(m, L8Prefix) then ReferenceFormat(ParamText(m), 1)
    else if HasPrefix(m, L16Prefix) then ReferenceFormat(ParamText(m), 2)
    else None
  }

  /** The format a parameter list describes, at `bps` bytes per sample. */
  function ReferenceFormat(text: string, bps: int): Option<Format> {
    var segs := Split(text);
    var rate := LastValue(segs, RateKey);
    if !AllOk(segs) || rate.None? || rate.value == -1 then None
    else Some(Format(rate.value, LastValue(segs, ChannelsKey).GetOr(1), bps))
  }

  /** A mimetype built from a supported prefix and a parameter list. */
  lemma PrefixedText(prefix: string, text: string)
    requires prefix == L8Prefix || prefix == L16Prefix
    ensures HasPrefix(prefix + text, prefix)
    ensures ParamText(prefix + text) == text
    ensures ReferenceParse(prefix + text) == ReferenceFormat(text, if prefix == L8Prefix then 1 else 2)
  {
    assert (prefix + text)[..|prefix|] == prefix;
    if prefix == L16Prefix {
      assert !HasPrefix(prefix + text, L8Prefix) by { assert (prefix + text)[7] == '1'; }
    }
  }

  /** `Run` does not look past a character that fails `p`. */
  lemma {:induction false} RunCut(t: string, u: string, p: char -> bool)
    requires u == [] || !p(u[0])
    ensures Run(t + u, p) == Run(t, p)
    decreases |t|
  {
    if t != [] {
      assert (t + u)[1..] == t[1..] + u;
      RunCut(t[1..], u, p);
    }
  }

  /** `strtol` stops at a comma: what follows it does not change the value read. */
  lemma StartCut(t: string, u: string)
    requires u == [] || u[0] == ','
    ensures DigitsStart(t + u) == DigitsStart(t)
    ensures Negative(t + u) <==> Negative(t)
  {
    RunCut(t, u, IsSpace);
    var w := Run(t, IsSpace);
    if w < |t| {
      assert (t + u)[w] == t[w];
    }
  }

  lemma StrtolCut(t: string, u: string)
    requires u == [] || u[0] == ','
    ensures Strtol(t + u) == Strtol(t)
  {
    StartCut(t, u);
    var start := DigitsStart(t);
    DigitRunCut(t, u, start);
    var d := Run(t[start..], IsDigit);
    SliceOfPrefix(t, u, start, start + d);
    StrtolSame(t + u, t, start, d);
  }

  /** The run of digits from `start` ends before a following comma. */
  lemma DigitRunCut(t: string, u: string, start: nat)
    requires start <= |t| && (u == [] || u[0] == ',')
    ensures Run((t + u)[start..], IsDigit) == Run(t[start..], IsDigit)
  {
    assert (t + u)[start..] == t[start..] + u;
    RunCut(t[start..], u, IsDigit);
  }

  /** A slice within `t` reads the same from `t + u`. */
  lemma SliceOfPrefix(t: string, u: string, i: nat, j: nat)
    requires i <= j <= |t|
    ensures (t + u)[i..j] == t[i..j]
  {
    assert forall k :: i <= k < j ==> (t + u)[k] == t[k];
  }

  /** `strtol` reads two strings alike when they agree on the sign, the start and the run of digits. */
  lemma StrtolSame(a: string, b: string, start: nat, d: nat)
    requires DigitsStart(a) == start && DigitsStart(b) == start && (Negative(a) <==> Negative(b))
    requires Run(a[start..], IsDigit) == d && Run(b[start..], IsDigit) == d
    requires a[start..start + d] == b[start..start + d]
    ensures Strtol(a) == Strtol(b)
  {
  }

  /** No parameter names both keys: they differ in their first letter. */
  lemma KeysDiffer(s: string)
    ensures !(HasPrefix(s, RateKey) && HasPrefix(s, ChannelsKey))
  {
    if HasPrefix(s, RateKey) {
      assert s[..5][0] == 'r';
      assert |s| < 9 || s[..9][0] == s[0];
    }
  }

  /** Cutting `s` at its first comma does not change which key it starts with. */
  lemma PrefixCut(s: string, i: nat, key: string)
    requires i <= |s| && NoComma(s[..i]) && (i == |s| || s[i] == ',')
    requires NoComma(key)
    ensures HasPrefix(s, key) <==> HasPrefix(s[..i], key)
  {
  }

  /** The position of the first comma, or the length when there is none. */
  function CommaOrEnd(s: string): (i: nat)
    ensures i <= |s| && NoComma(s[..i]) && (i == |s| || s[i] == ',')
    ensures Split(s)[0] == s[..i]
  {
    match FindComma(s)
    case None => |s|
    case Some(i) => i
  }

  /** Skipping comma-free text keeps the next comma where it was. */
  lemma {:induction false} FindCommaSkip(s: string, k: nat)
    requires k <= |s| && NoComma(s[..k])
    ensures FindComma(s).None? ==> FindComma(s[k..]).None?
    ensures FindComma(s).Some? ==> k <= FindComma(s).value && FindComma(s[k..]) == Some(FindComma(s).value - k)
    decreases k
  {
    if k > 0 {
      assert s[0] != ',';
      FindCommaSkip(s[1..], k - 1);
      assert s[1..][k - 1..] == s[k..];
    }
  }

  /** A key and its value, read up to the next comma, are read the same from the first piece of `Split`. */
  lemma KeyedSegment(s: string, key: string)
    requires key == ChannelsKey || key == RateKey
    ensures HasPrefix(s, key) <==> HasPrefix(Split(s)[0], key)
    ensures HasPrefix(s, key) ==> Strtol(s[|key|..]) == Strtol(Split(s)[0][|key|..])
  {
    var i := CommaOrEnd(s);
    var seg := s[..i];
    PrefixCut(s, i, key);
    if HasPrefix(s, key) {
      assert s[|key|..] == seg[|key|..] + s[i..];
      StrtolCut(seg[|key|..], s[i..]);
    }
  }

  /** The step of the scan: one parameter, read up to the next comma, is the first piece of `Split`. */
  lemma ParseParamSegment(s: string, rate: int, channels: int)
    ensures ParseParam(s, rate, channels).None? <==> !SegmentOk(Split(s)[0])
    ensures ParseParam(s, rate, channels).Some? ==>
      var r := ParseParam(s, rate, channels).value;
      r.0 == SegmentValue(Split(s)[0], RateKey).GetOr(rate) &&
      r.1 == SegmentValue(Split(s)[0], ChannelsKey).GetOr(channels)
  {
    var seg := Split(s)[0];
    KeyedSegment(s, ChannelsKey);
    KeyedSegment(s, RateKey);
    if HasPrefix(seg, ChannelsKey) {
      KeysDiffer(seg);
    }
  }

  /** The reference reading taken one piece at a time, as the scan goes. */
  function Fold(segs: seq<string>, rate: int, channels: int): Option<(int, int)> {
    if segs == [] then Some((rate, channels))
    else if !SegmentOk(segs[0]) then None
    else Fold(segs[1..], SegmentValue(segs[0], RateKey).GetOr(rate), SegmentValue(segs[0], ChannelsKey).GetOr(channels))
  }

  /** The scan reads the pieces of `Split` in order. */
  lemma {:induction false} ScanFold(s: string, rate: int, channels: int)
    ensures ScanParams(s, rate, channels) == Fold(Split(s), rate, channels)
    decreases |s|
  {
    ParseParamSegment(s, rate, channels);
    var segs := Split(s);
    match ParseParam(s, rate, channels)
    case None =>
    case Some((rate', channels', k)) =>
      FindCommaSkip(s, k);
      ScanEnter(s, rate, channels);
      ScanAdvance(s[k..], rate', channels');
      match FindComma(s)
      case None =>
        assert segs == [s];
      case Some(i) =>
        var tail := s[k..][i - k + 1..];
        assert tail == s[i + 1..];
        SplitAtComma(s, i);
        ScanFold(tail, rate', channels');
  }

  /** Folding the pieces gives the last value of each key, unless some piece is malformed. */
  lemma {:induction false} FoldMeaning(segs: seq<string>, rate: int, channels: int)
    ensures Fold(segs, rate, channels) ==
      if !AllOk(segs) then None
      else Some((LastValue(segs, RateKey).GetOr(rate), LastValue(segs, ChannelsKey).GetOr(channels)))
    decreases |segs|
  {
    if segs != [] {
      AllOkCons(segs);
      FoldMeaning(segs[1..], SegmentValue(segs[0], RateKey).GetOr(rate), SegmentValue(segs[0], ChannelsKey).GetOr(channels));
    }
  }

  /** The scan computes the reference reading of the parameter list. */
  lemma ScanParamsMeaning(s: string, rate: int, channels: int)
    ensures ScanParams(s, rate, channels) ==
      var segs := Split(s);
      if !AllOk(segs) then None
      else Some((LastValue(segs, RateKey).GetOr(rate), LastValue(segs, ChannelsKey).GetOr(channels)))
  {
    ScanFold(s, rate, channels);
    FoldMeaning(Split(s), rate, channels);
  }

  /** The loop reads the first parameter and goes on from the end of its value. */
  lemma ScanEnter(s: string, rate: int, channels: int)
    requires ParseParam(s, rate, channels).Some?
    ensures var p := ParseParam(s, rate, channels).value;
      ScanParams(s, rate, channels) == ScanNext(s[p.2..], p.0, p.1)
  {
  }

  /** The advance stops without a comma and otherwise goes on just after it. */
  lemma ScanAdvance(s: string, rate: int, channels: int)
    ensures FindComma(s).None? ==> ScanNext(s, rate, channels) == Some((rate, channels))
    ensures FindComma(s).Some? ==> ScanNext(s, rate, channels) == ScanParams(s[FindComma(s).value + 1..], rate, channels)
  {
  }

  /** `Split` cuts at the first comma and goes on after it. */
  lemma SplitAtComma(s: string, i: nat)
    requires FindComma(s) == Some(i)
    ensures Split(s) == [s[..i]] + Split(s[i + 1..])
    ensures Split(s)[1..] == Split(s[i + 1..])
  {
  }

  lemma AllOkCons(segs: seq<string>)
    requires |segs| >= 1
    ensures AllOk(segs) <==> SegmentOk(segs[0]) && AllOk(segs[1..])
  {
    if SegmentOk(segs[0]) && AllOk(segs[1..]) {
      forall j | 0 <= j < |segs| ensures SegmentOk(segs[j]) {
        if j > 0 { assert segs[j] == segs[1..][j - 1]; }
      }
    }
  }

  /** The parser as written computes the reference parse. */
  lemma ParseMatchesReference(m: string)
    ensures ParseMimetype(m) == ReferenceParse(m)
  {
    if HasPrefix(m, L8Prefix) {
      ScanParamsMeaning(m[9..], -1, 1);
    } else if HasPrefix(m, L16Prefix) {
      ScanParamsMeaning(m[10..], -1, 1);
    }
  }

  /** Under well-formed pieces, a key has no value exactly when no piece names it. */
  lemma {:induction false} LastValueNone(segs: seq<string>, key: string)
    requires key == ChannelsKey || key == RateKey
    requires AllOk(segs)
    ensures LastValue(segs, key).None? <==> forall j :: 0 <= j < |segs| ==> !HasPrefix(segs[j], key)
  {
    if segs != [] {
      AllOkCons(segs);
      LastValueNone(segs[1..], key);
      assert forall j :: 1 <= j < |segs| ==> segs[j] == segs[1..][j - 1];
    }
  }

  /** The piece that names a key last gives that key its value. */
  lemma {:induction false} LastValueAt(segs: seq<string>, key: string, j: nat)
    requires key == ChannelsKey || key == RateKey
    requires AllOk(segs)
    requires j < |segs| && HasPrefix(segs[j], key)
    requires forall j' :: j < j' < |segs| ==> !HasPrefix(segs[j'], key)
    ensures LastValue(segs, key) == SegmentValue(segs[j], key) && LastValue(segs, key).Some?
  {
    AllOkCons(segs);
    if j == 0 {
      LastValueNone(segs[1..], key);
      assert forall j' :: 0 <= j' < |segs[1..]| ==> segs[1..][j'] == segs[j' + 1];
    } else {
      LastValueAt(segs[1..], key, j - 1);
    }
  }

  /** Splitting two comma-free parameters joined by a comma gives the two of them. */
  lemma SplitPair(x: string, y: string)
    requires NoComma(x) && NoComma(y)
    ensures Split(x + "," + y) == [x, y]
  {
    var s := x + "," + y;
    assert FindComma(s) == Some(|x|) by {
      assert s[|x|] == ',';
      assert forall i :: 0 <= i < |x| ==> s[i] == x[i];
      assert FindComma(s).None? ==> false;
    }
    assert s[..|x|] == x && s[|x| + 1..] == y;
    assert FindComma(y).None?;
  }

  /**
   * What the parser accepts: a supported prefix, well-formed values and a
   * `rate=` parameter (with the as-written quirk that the value -1 counts as
   * missing); `channels` defaults to 1 when no parameter names it.
   */
  lemma ParseSucceeds(m: string)
    ensures ParseMimetype(m).Some? <==>
      (HasPrefix(m, L8Prefix) || HasPrefix(m, L16Prefix)) &&
      AllOk(Split(ParamText(m))) &&
      (exists j :: 0 <= j < |Split(ParamText(m))| && HasPrefix(Split(ParamText(m))[j], RateKey)) &&
      LastValue(Split(ParamText(m)), RateKey) != Some(-1)
    ensures ParseMimetype(m).Some? && (forall j :: 0 <= j < |Split(ParamText(m))| ==> !HasPrefix(Split(ParamText(m))[j], ChannelsKey))
      ==> ParseMimetype(m).value.channels == 1
  {
    ParseMatchesReference(m);
    if HasPrefix(m, L8Prefix) || HasPrefix(m, L16Prefix) {
      var segs := Split(ParamText(m));
      if AllOk(segs) {
        LastValueNone(segs, RateKey);
        LastValueNone(segs, ChannelsKey);
      }
    }
  }

  /**
   * Parameter order does not matter: two parameters that do not name the same
   * key give the same format in either order.
   */
  lemma ParamOrderIrrelevant(prefix: string, x: string, y: string)
    requires prefix == L8Prefix || prefix == L16Prefix
    requires NoComma(x) && NoComma(y)
    requires !(HasPrefix(x, RateKey) && HasPrefix(y, RateKey))
    requires !(HasPrefix(x, ChannelsKey) && HasPrefix(y, ChannelsKey))
    ensures ParseMimetype(prefix + x + "," + y) == ParseMimetype(prefix + y + "," + x)
  {
    assert prefix + x + "," + y == prefix + (x + "," + y);
    assert prefix + y + "," + x == prefix + (y + "," + x);
    ParseMatchesReference(prefix + (x + "," + y));
    ParseMatchesReference(prefix + (y + "," + x));
    PrefixedText(prefix, x + "," + y);
    PrefixedText(prefix, y + "," + x);
    PairSwap(x, y, if prefix == L8Prefix then 1 else 2);
  }

  lemma PairSwap(x: string, y: string, bps: int)
    requires NoComma(x) && NoComma(y)
    requires !(HasPrefix(x, RateKey) && HasPrefix(y, RateKey))
    requires !(HasPrefix(x, ChannelsKey) && HasPrefix(y, ChannelsKey))
    ensures ReferenceFormat(x + "," + y, bps) == ReferenceFormat(y + "," + x, bps)
  {
    SplitPair(x, y);
    SplitPair(y, x);
    AllOkPair(x, y);
    AllOkPair(y, x);
    LastValuePair(x, y, RateKey);
    LastValuePair(y, x, RateKey);
    LastValuePair(x, y, ChannelsKey);
    LastValuePair(y, x, ChannelsKey);
  }

  /** Both pieces of a pair must be well formed. */
  lemma AllOkPair(x: string, y: string)
    ensures AllOk([x, y]) <==> SegmentOk(x) && SegmentOk(y)
  {
    AllOkCons([x, y]);
    AllOkCons([y]);
    assert [x, y][1..] == [y] && [y][1..] == [];
  }

  /** Of a pair, the second piece gives a key its value when it names it, and the first otherwise. */
  lemma LastValuePair(x: string, y: string, key: string)
    ensures LastValue([x, y], key) == if SegmentValue(y, key).Some? then SegmentValue(y, key) else SegmentValue(x, key)
  {
    assert [x, y][1..] == [y] && [y][1..] == [];
    assert LastValue([y], key) == SegmentValue(y, key);
  }

  /** A repeated parameter takes its last value. */
  lemma RepeatedParamLastWins(prefix: string, key: string, x: string, y: string)
    requires prefix == L8Prefix || prefix == L16Prefix
    requires key == ChannelsKey || key == RateKey
    requires NoComma(x) && NoComma(y) && HasPrefix(x, key) && HasPrefix(y, key)
    requires ParseMimetype(prefix + (x + "," + y)).Some?
    ensures var f := ParseMimetype(prefix + (x + "," + y)).value;
      Some(if key == RateKey then f.rate else f.channels) == SegmentValue(y, key)
  {
    ParseMatchesReference(prefix + (x + "," + y));
    PrefixedText(prefix, x + "," + y);
    SplitPair(x, y);
    LastValueAt([x, y], key, 1);
  }

  /** A run over characters that all satisfy `p` covers the whole string. */
  lemma {:induction false} RunAll(s: string, p: char -> bool)
    requires forall i :: 0 <= i < |s| ==> p(s[i])
    ensures Run(s, p) == |s|
    decreases |s|
  {
    if s != [] {
      RunAll(s[1..], p);
    }
  }

  /** `strtol` on a plain numeral reads all of it. */
  lemma StrtolNumeral(ds: string)
    requires |ds| > 0 && forall i :: 0 <= i < |ds| ==> IsDigit(ds[i])
    requires DigitsValue(0, ds) <= LongMax
    ensures Strtol(ds) == Some((DigitsValue(0, ds) as int, |ds|))
  {
    assert Run(ds, IsSpace) == 0;
    assert DigitsStart(ds) == 0 && !Negative(ds);
    RunAll(ds, IsDigit);
    assert ds[0..|ds|] == ds;
  }

  /** A run of white space ends where the white space does. */
  lemma SpaceRun(ws: string, t: string)
    requires forall i :: 0 <= i < |ws| ==> IsSpace(ws[i])
    requires t == [] || !IsSpace(t[0])
    ensures Run(ws + t, IsSpace) == |ws|
  {
    RunCut(ws, t, IsSpace);
    RunAll(ws, IsSpace);
  }

  /** A run of digits ends where the digits do. */
  lemma DigitRun(digits: string, rest: string)
    requires forall i :: 0 <= i < |digits| ==> IsDigit(digits[i])
    requires rest == [] || !IsDigit(rest[0])
    ensures Run(digits + rest, IsDigit) == |digits|
  {
    RunCut(digits, rest, IsDigit);
    RunAll(digits, IsDigit);
  }

  /** After white space, an optional sign decides where the digits start and whether the value is negative. */
  lemma SignAfterSpace(ws: string, sign: string, t: string)
    requires forall i :: 0 <= i < |ws| ==> IsSpace(ws[i])
    requires sign == "" || sign == "-" || sign == "+"
    requires sign == "" ==> t == [] || (!IsSpace(t[0]) && t[0] != '-' && t[0] != '+')
    ensures DigitsStart(ws + sign + t) == |ws| + |sign|
    ensures Negative(ws + sign + t) <==> sign == "-"
  {
    var s := ws + sign + t;
    assert s == ws + (sign + t);
    if sign != "" {
      assert (sign + t)[0] == sign[0];
    }
    SpaceRun(ws, sign + t);
    if |ws| < |s| {
      assert s[|ws|] == (sign + t)[0];
    }
  }

  /**
   * What `strtol` reads from white space, an optional sign, decimal digits
   * and a rest that does not go on with a digit: the signed value of the
   * digits and everything up to the last digit, or failure when there is no
   * digit or the value does not fit a `long`.
   */
  lemma StrtolReads(ws: string, sign: string, digits: string, rest: string)
    requires forall i :: 0 <= i < |ws| ==> IsSpace(ws[i])
    requires sign == "" || sign == "-" || sign == "+"
    requires forall i :: 0 <= i < |digits| ==> IsDigit(digits[i])
    requires rest == [] || !IsDigit(rest[0])
    requires sign == "" && digits == [] && rest != [] ==> !IsSpace(rest[0]) && rest[0] != '-' && rest[0] != '+'
    ensures Strtol(ws + sign + digits + rest) == NumberRead(sign == "-", digits, |ws| + |sign| + |digits|)
  {
    var s := ws + sign + digits + rest;
    var start := |ws| + |sign|;
    NumberShape(ws, sign, digits, rest);
    var t := s[start..];
    if sign == "" && digits != [] {
      assert t[0] == digits[0];
    }
    SignAfterSpace(ws, sign, t);
    DigitRun(digits, rest);
    StrtolAt(s, start, |digits|, sign == "-", digits);
  }

  /** Where the pieces of a number sit in `ws + sign + digits + rest`. */
  lemma NumberShape(ws: string, sign: string, digits: string, rest: string)
    ensures ws + sign + digits + rest == ws + sign + (ws + sign + digits + rest)[|ws| + |sign|..]
    ensures (ws + sign + digits + rest)[|ws| + |sign|..] == digits + rest
    ensures (ws + sign + digits + rest)[|ws| + |sign|..|ws| + |sign| + |digits|] == digits
  {
    var s := ws + sign + digits + rest;
    var k := |ws| + |sign|;
    assert s[k..] == digits + rest;
    assert forall i :: 0 <= i < |digits| ==> s[k..k + |digits|][i] == digits[i];
  }

  /** `strtol` in terms of where its digits start, how many there are and the sign. */
  lemma StrtolAt(s: string, start: nat, d: nat, neg: bool, digits: string)
    requires DigitsStart(s) == start && start + d <= |s|
    requires Run(s[start..], IsDigit) == d && (Negative(s) <==> neg)
    requires s[start..start + d] == digits
    ensures Strtol(s) == NumberRead(neg, digits, start + d)
  {
  }

  /** `rate=R,channels=C` with well-formed values gives exactly R and C (the reference side). */
  lemma RateChannelsReference(x: string, y: string, r: int, c: int, bps: int)
    requires NoComma(x) && NoComma(y)
    requires HasPrefix(x, RateKey) && HasPrefix(y, ChannelsKey)
    requires Strtol(x[5..]) == Some((r, |x| - 5)) && Strtol(y[9..]) == Some((c, |y| - 9)) && r != -1
    ensures ReferenceFormat(x + "," + y, bps) == Some(Format(r, c, bps))
  {
    SplitPair(x, y);
    KeysDiffer(x);
    KeysDiffer(y);
    AllOkPair(x, y);
    LastValuePair(x, y, RateKey);
    LastValuePair(x, y, ChannelsKey);
  }

  /** A `rate=` parameter followed by a `channels=` parameter, each read whole, gives exactly those values. */
  lemma ParseRateChannels(prefix: string, x: string, y: string, r: int, c: int)
    requires prefix == L8Prefix || prefix == L16Prefix
    requires NoComma(x) && NoComma(y)
    requires HasPrefix(x, RateKey) && HasPrefix(y, ChannelsKey)
    requires Strtol(x[5..]) == Some((r, |x| - 5)) && Strtol(y[9..]) == Some((c, |y| - 9)) && r != -1
    ensures ParseMimetype(prefix + (x + "," + y)) == Some(Format(r, c, if prefix == L8Prefix then 1 else 2))
  {
    ParseMatchesReference(prefix + (x + "," + y));
    PrefixedText(prefix, x + "," + y);
    RateChannelsReference(x, y, r, c, if prefix == L8Prefix then 1 else 2);
  }

  /** A single well-formed `rate=` parameter gives that rate and one channel. */
  lemma ParseRateOnly(prefix: string, x: string, r: int)
    requires prefix == L8Prefix || prefix == L16Prefix
    requires NoComma(x) && HasPrefix(x, RateKey)
    requires Strtol(x[5..]) == Some((r, |x| - 5)) && r != -1
    ensures ParseMimetype(prefix + x) == Some(Format(r, 1, if prefix == L8Prefix then 1 else 2))
  {
    ParseMatchesReference(prefix + x);
    PrefixedText(prefix, x);
    assert Split(x) == [x] by { assert FindComma(x).None?; }
    KeysDiffer(x);
    AllOkCons([x]);
    assert [x][1..] == [];
    assert LastValue([x], RateKey) == Some(r);
    assert LastValue([x], ChannelsKey) == None;
  }

  /** A list of parameters none of which names `rate=` is refused. */
  lemma ParseNoRate(prefix: string, text: string)
    requires prefix == L8Prefix || prefix == L16Prefix
    requires forall j :: 0 <= j < |Split(text)| ==> !HasPrefix(Split(text)[j], RateKey)
    ensures ParseMimetype(prefix + text).None?
  {
    ParseMatchesReference(prefix + text);
    PrefixedText(prefix, text);
    var segs := Split(text);
    if AllOk(segs) {
      LastValueNone(segs, RateKey);
    }
  }

  /*
   * The example capability strings. Each is written as a concatenation of its
   * parts so that the verifier does not evaluate the whole parser on one
   * literal; the strings are those shown in each lemma's comment.
   */

  lemma Numeral44100()
    ensures Strtol("44100") == Some((44100, 5))
  {
    assert DigitsValue(4410, "0") == 44100;
    assert DigitsValue(441, "00") == 44100;
    assert DigitsValue(44, "100") == 44100;
    assert DigitsValue(4, "4100") == 44100;
    StrtolNumeral("44100");
  }

  lemma Numeral8000()
    ensures Strtol("8000") == Some((8000, 4))
  {
    assert DigitsValue(800, "0") == 8000;
    assert DigitsValue(80, "00") == 8000;
    assert DigitsValue(8, "000") == 8000;
    StrtolNumeral("8000");
  }

  lemma Numeral2()
    ensures Strtol("2") == Some((2, 1))
  {
    StrtolNumeral("2");
  }

  /** A key followed by a numeral that `strtol` reads whole is a parameter read whole. */
  lemma KeyedNumeral(key: string, ds: string, v: int)
    requires key == RateKey || key == ChannelsKey
    requires Strtol(ds) == Some((v, |ds|))
    ensures NoComma(key + ds) && HasPrefix(key + ds, key)
    ensures Strtol((key + ds)[|key|..]) == Some((v, |key + ds| - |key|))
  {
    var x := key + ds;
    assert x[|key|..] == ds && x[..|key|] == key;
    assert ds[..|ds|] == ds;
    KeyThenValue(x, key, |ds|);
    assert x[..|key| + |ds|] == x;
  }

  /** "audio/L16;rate=44100,channels=2" is 44100 Hz stereo 16-bit PCM. */
  lemma ParseStereoExample()
    ensures ParseMimetype(L16Prefix + ((RateKey + "44100") + "," + (ChannelsKey + "2"))) == Some(Format(44100, 2, 2))
  {
    Numeral44100();
    Numeral2();
    KeyedNumeral(RateKey, "44100", 44100);
    KeyedNumeral(ChannelsKey, "2", 2);
    ParseRateChannels(L16Prefix, RateKey + "44100", ChannelsKey + "2", 44100, 2);
  }

  /** "audio/L8;rate=8000" is 8000 Hz 8-bit PCM with the default single channel. */
  lemma ParseMonoDefaultExample()
    ensures ParseMimetype(L8Prefix + (RateKey + "8000")) == Some(Format(8000, 1, 1))
  {
    Numeral8000();
    KeyedNumeral(RateKey, "8000", 8000);
    ParseRateOnly(L8Prefix, RateKey + "8000", 8000);
  }

  /** "audio/L16;channels=2" names no rate and is refused. */
  lemma ParseMissingRateExample()
    ensures ParseMimetype(L16Prefix + (ChannelsKey + "2")) == None
  {
    var x := ChannelsKey + "2";
    assert NoComma(x);
    assert Split(x) == [x] by { assert FindComma(x).None?; }
    KeysDiffer(x);
    ParseNoRate(L16Prefix, x);
  }

  /** "audio/mpeg;rate=44100" is not linear PCM and is refused. */
  lemma ParseOtherTypeExample()
    ensures ParseMimetype("audio/mpeg" + (";" + RateKey + "44100")) == None
  {
    var m := "audio/mpeg" + (";" + RateKey + "44100");
    assert m[..9][6] == 'm' && m[..10][6] == 'm';
  }

  lemma Numeral0()
    ensures Strtol("0") == Some((0, 1))
  {
    StrtolNumeral("0");
  }

  /** "audio/L8;rate=8000,channels=0" is accepted as written, with no channels at all; the checked parser refuses it. */
  lemma ParseZeroChannelsExample()
    ensures ParseMimetype(L8Prefix + ((RateKey + "8000") + "," + (ChannelsKey + "0"))) == Some(Format(8000, 0, 1))
    ensures ParseMimetypeChecked(L8Prefix + ((RateKey + "8000") + "," + (ChannelsKey + "0"))).None?
  {
    Numeral8000();
    Numeral0();
    KeyedNumeral(RateKey, "8000", 8000);
    KeyedNumeral(ChannelsKey, "0", 0);
    ParseRateChannels(L8Prefix, RateKey + "8000", ChannelsKey + "0", 8000, 0);
  }

  /** "audio/L8;rate=0" is accepted as written, at a rate of zero; the checked parser refuses it. */
  lemma ParseZeroRateExample()
    ensures ParseMimetype(L8Prefix + (RateKey + "0")) == Some(Format(0, 1, 1))
    ensures ParseMimetypeChecked(L8Prefix + (RateKey + "0")).None?
  {
    Numeral0();
    KeyedNumeral(RateKey, "0", 0);
    ParseRateOnly(L8Prefix, RateKey + "0", 0);
  }
}
