/**
 The search space of a job: the pool's extranonce as leading hexadecimal digits of a 64-bit nonce, and
 the rest divided among the devices.
 */
module NoncePartition {
  import opened Arithmetic
  import opened Options
  import opened Sequences

  // ----- strtoull in base 16 -----------------------------------------------------------------------

  function HexDigit(c: char): Option<nat> {
    if '0' <= c <= '9' then Some(c as int - '0' as int)
    else if 'a' <= c <= 'f' then Some(c as int - 'a' as int + 10)
    else if 'A' <= c <= 'F' then Some(c as int - 'A' as int + 10)
    else None
  }

  /** The digits in order, in both cases, and nothing else. */
  lemma HexDigitTable(c: char, d: nat)
    requires d < 16
    ensures HexDigit(c) == Some(d) <==> c == "0123456789abcdef"[d] || c == "0123456789ABCDEF"[d]
    ensures HexDigit(c).Some? ==> HexDigit(c).value < 16
  {
  }

  predicate IsHex(s: string) {
    forall i | 0 <= i < |s| :: HexDigit(s[i]).Some?
  }

  /** The number denoted by hexadecimal digits. */
  function HexValue(s: string): nat
    requires IsHex(s)
  {
    if s == "" then 0 else 16 * HexValue(s[..|s| - 1]) + HexDigit(s[|s| - 1]).value
  }

  function IsSpace(c: char): bool {
    c == ' ' || 9 <= c as int <= 13
  }

  function SkipSpace(s: string): string {
    if s != "" && IsSpace(s[0]) then SkipSpace(s[1..]) else s
  }

  /** The longest prefix of hexadecimal digits. */
  function HexPrefix(s: string): (p: string)
    ensures IsHex(p)
  {
    if s != "" && HexDigit(s[0]).Some? then [s[0]] + HexPrefix(s[1..]) else ""
  }

  function SkipSign(s: string): string {
    if s != "" && (s[0] == '-' || s[0] == '+') then s[1..] else s
  }

  function SkipPrefix(s: string): string {
    if |s| > 2 && s[0] == '0' && (s[1] == 'x' || s[1] == 'X') && HexDigit(s[2]).Some? then s[2..] else s
  }

  /** Space, sign, "0x", digits up to the first other character; too large numbers saturate. */
  function StrToULL(s: string): (v: nat)
    ensures v < U64
  {
    var t := SkipSpace(s);
    var v := HexValue(HexPrefix(SkipPrefix(SkipSign(t))));
    if v >= U64 then U64 - 1 else if t != "" && t[0] == '-' then (U64 - v) % U64 else v
  }

  /** Space as the C standard has it: blank, tab, line feed, vertical tab, form feed, carriage return. */
  lemma SpacesWrittenOut(c: char)
    ensures IsSpace(c) <==> c == ' ' || c == '\t' || c == '\n' || c == '\U{B}' || c == '\U{C}' || c == '\r'
  {
  }

  predicate AllSpace(s: string) {
    forall i | 0 <= i < |s| :: IsSpace(s[i])
  }

  lemma {:induction false} SpaceSkipped(space: string, t: string)
    requires AllSpace(space) && (t != "" ==> !IsSpace(t[0]))
    ensures SkipSpace(space + t) == t
  {
    var s := space + t;
    if space == "" {
      assert s == t;
    } else {
      assert s[0] == space[0] && s[1..] == space[1..] + t;
      SpaceSkipped(space[1..], t);
    }
  }

  lemma {:induction false} DigitsThenRest(digits: string, rest: string)
    requires IsHex(digits) && (rest != "" ==> HexDigit(rest[0]).None?)
    ensures HexPrefix(digits + rest) == digits
  {
    var s := digits + rest;
    if digits == "" {
      assert s == rest;
    } else {
      assert s[0] == digits[0] && s[1..] == digits[1..] + rest;
      DigitsThenRest(digits[1..], rest);
      assert digits == [digits[0]] + digits[1..];
    }
  }

  /** A text of the form strtoull expects: optional prefix, at least one digit, then anything that is not a digit. */
  predicate IsSubject(prefix: string, digits: string, rest: string) {
    && (prefix == "" || prefix == "0x" || prefix == "0X")
    && digits != "" && IsHex(digits) && (rest != "" ==> HexDigit(rest[0]).None?)
    // "0" followed by "x" and a digit would be a prefix
    && (prefix == "" && digits == "0" && |rest| > 1 && (rest[0] == 'x' || rest[0] == 'X') ==> HexDigit(rest[1]).None?)
  }

  lemma PrefixSkipped(prefix: string, digits: string, rest: string)
    requires IsSubject(prefix, digits, rest)
    ensures SkipPrefix(prefix + digits + rest) == digits + rest
  {
    var s := prefix + digits + rest;
    if prefix == "" {
      assert s == digits + rest;
      assert |digits| > 1 ==> HexDigit(s[1]).Some?;
      assert |digits| == 1 ==> s[1..] == rest;
    } else {
      assert s[..2] == prefix && s[2..] == digits + rest;
    }
  }

  lemma SignSkipped(sign: string, t: string)
    requires sign == "" || sign == "+" || sign == "-"
    requires t != "" && t[0] != '+' && t[0] != '-'
    ensures SkipSign(sign + t) == t
  {
    if sign == "" {
      assert sign + t == t;
    } else {
      assert (sign + t)[1..] == t;
    }
  }

  lemma FirstCharacters(sign: string, prefix: string, digits: string, rest: string)
    requires (sign == "" || sign == "+" || sign == "-") && IsSubject(prefix, digits, rest)
    ensures var u, t := prefix + digits + rest, sign + (prefix + digits + rest);
            && u != "" && u[0] != '+' && u[0] != '-' && t != "" && !IsSpace(t[0]) && (t[0] == '-' <==> sign == "-")
  {
    var u := prefix + digits + rest;
    assert u[0] == if prefix == "" then digits[0] else '0';
    assert (sign + u)[0] == if sign == "" then u[0] else sign[0];
  }

  /**
   Section 7.22.1.4 of ISO C: after space, an optional sign and an optional "0x" the digits up to the first other
   character give the value; numbers of more than 64 bits give the largest, and a minus sign negates modulo 2^64.
   */
  lemma StrToULLOfSubject(space: string, sign: string, prefix: string, digits: string, rest: string)
    requires AllSpace(space) && (sign == "" || sign == "+" || sign == "-") && IsSubject(prefix, digits, rest)
    ensures StrToULL(space + (sign + (prefix + digits + rest))) ==
            var v := HexValue(digits);
            if v > 0xFFFF_FFFF_FFFF_FFFF then 0xFFFF_FFFF_FFFF_FFFF
            else if sign == "-" && v > 0 then 0x1_0000_0000_0000_0000 - v
            else v
  {
    hide HexDigit, HexValue, IsSpace, HexPrefix, SkipSpace, SkipSign, SkipPrefix;
    var u := prefix + digits + rest;
    FirstCharacters(sign, prefix, digits, rest);
    SpaceSkipped(space, sign + u);
    SignSkipped(sign, u);
    PrefixSkipped(prefix, digits, rest);
    DigitsThenRest(digits, rest);
  }

  lemma HexPrefixWhole(s: string)
    requires IsHex(s)
    ensures HexPrefix(s) == s
  {
    DigitsThenRest(s, "");
    assert s + "" == s;
  }

  lemma {:induction false} HexValueBound(s: string)
    requires IsHex(s)
    ensures HexValue(s) < Pow(16, |s|)
  {
    if s != "" {
      HexValueBound(s[..|s| - 1]);
    }
  }

  lemma {:induction false} PowMono(b: nat, m: nat, n: nat)
    requires b > 0 && m <= n
    ensures Pow(b, m) <= Pow(b, n)
    decreases n
  {
    if m < n {
      PowMono(b, m, n - 1);
      MulMono(1, b, Pow(b, n - 1));
    }
  }

  lemma Pow16Words()
    ensures Pow(16, 16) == U64
  {
    assert Pow(16, 4) == 65536;
    PowSquare(16, 4, 65536);
    PowSquare(16, 8, U32);
  }

  /** On at most 16 hexadecimal digits strtoull reads the number they denote. */
  lemma StrToULLOfHex(s: string)
    requires IsHex(s) && |s| <= 16
    ensures StrToULL(s) == HexValue(s)
  {
    if s != "" {
      assert IsSubject("", s, "");
      hide HexValue, Pow, StrToULL, IsSubject;
      StrToULLOfSubject("", "", "", s, "");
      assert "" + ("" + ("" + s + "")) == s;
      HexValueBound(s);
      PowMono(16, |s|, 16);
      Pow16Words();
    }
  }

  // ----- Stratum: the nonce range of an extranonce -------------------------------------------------

  /** The nonce fields of a job. */
  datatype NonceInfo = NonceInfo(
    extraNonceSize: nat, extraNonce: nat, gapNonce: nat, startNonce: nat, nonce: nat)

  lemma MulRotate(a: int, b: int, c: int)
    ensures a * (b * c) == b * (a * c)
  {
  }

  lemma {:induction false} HexValueZeros(e: string, n: nat)
    requires IsHex(e)
    ensures IsHex(e + Repeat('0', n)) && HexValue(e + Repeat('0', n)) == HexValue(e) * Pow(16, n)
  {
    var s := e + Repeat('0', n);
    if n == 0 {
      assert s == e;
    } else {
      RepeatOnce('0', n - 1);
      HexValueZeros(e, n - 1);
      assert s[..|s| - 1] == e + Repeat('0', n - 1) && s[|s| - 1] == '0';
      assert HexValue(s) == 16 * HexValue(e + Repeat('0', n - 1));
      MulRotate(16, HexValue(e), Pow(16, n - 1));
    }
  }

  lemma {:induction false} HexValueAllOnes(n: nat)
    ensures IsHex(Repeat('f', n)) && HexValue(Repeat('f', n)) == Pow(16, n) - 1
  {
    if n > 0 {
      RepeatOnce('f', n - 1);
      HexValueAllOnes(n - 1);
      assert Repeat('f', n)[..n - 1] == Repeat('f', n - 1);
    }
  }

  function Truncated(param: string): string {
    if |param| > 16 then param[..16] else param
  }

  /** The range belongs to the extranonce: its digits lead every nonce in it, and it ends within 64 bits. */
  ghost predicate RangeOf(info: NonceInfo, e: string)
    requires IsHex(e) && |e| <= 16
  {
    var block := Pow(16, 16 - |e|);
    && info.extraNonceSize == |e| && info.extraNonce == HexValue(e)
    && info.startNonce == info.nonce == HexValue(e) * block && info.gapNonce == block - 1
    && info.startNonce + info.gapNonce < U64
  }

  /** Block v of h equal blocks ends before the end of the last one. */
  lemma LastBlock(v: nat, h: nat, p: nat)
    requires v < h && p > 0
    ensures v * p + p - 1 < h * p
  {
    MulMono(v + 1, h, p);
    Distribute(v, 1, 1, p);
  }

  lemma HexRange(e: string, fill: nat)
    requires IsHex(e) && |e| + fill == 16
    ensures StrToULL(e) == HexValue(e)
    ensures StrToULL(e + Repeat('0', fill)) == HexValue(e) * Pow(16, fill)
    ensures StrToULL(Repeat('f', fill)) == Pow(16, fill) - 1
    ensures HexValue(e) * Pow(16, fill) + Pow(16, fill) - 1 < U64
  {
    hide StrToULL, HexValue, Pow, Repeat;
    HexValueZeros(e, fill);
    HexValueAllOnes(fill);
    StrToULLOfHex(e);
    StrToULLOfHex(e + Repeat('0', fill));
    StrToULLOfHex(Repeat('f', fill));
    HexValueBound(e);
    PowAdd(16, |e|, fill);
    Pow16Words();
    LastBlock(HexValue(e), Pow(16, |e|), Pow(16, fill));
  }

  /** The nonce fields for an extranonce as the pool sends it. */
  function RangeInfo(param: string): NonceInfo {
    var e := Truncated(param);
    var fill := 16 - |e|;
    var start := StrToULL(e + Repeat('0', fill));
    NonceInfo(|e|, StrToULL(e), StrToULL(Repeat('f', fill)), start, start)
  }

  /** For hexadecimal digits the fields describe the range of the extranonce. */
  lemma RangeInfoOfHex(param: string)
    requires IsHex(Truncated(param))
    ensures RangeOf(RangeInfo(param), Truncated(param))
  {
    hide StrToULL, HexValue, Pow, Repeat;
    var e := Truncated(param);
    HexRange(e, 16 - |e|);
  }

  class Stratum {
    var jobInfo: NonceInfo

    method SetExtraNonce(param: string)
      modifies this
      ensures jobInfo == RangeInfo(param)
      ensures IsHex(Truncated(param)) ==> RangeOf(jobInfo, Truncated(param))
    {
      var extraNonce := if |param| > 16 then param[..16] else param;
      var fill := 16 - |extraNonce|;
      var extraNonceFill := extraNonce;
      for i := 0 to fill
        invariant extraNonceFill == extraNonce + Repeat('0', i)
      {
        extraNonceFill := extraNonceFill + "0";
      }
      var gapExtraNonce := "";
      for i := 0 to fill
        invariant gapExtraNonce == Repeat('f', i)
      {
        gapExtraNonce := gapExtraNonce + "f";
      }
      var start := StrToULL(extraNonceFill);
      jobInfo := NonceInfo(|extraNonce|, StrToULL(extraNonce), StrToULL(gapExtraNonce), start, start);
      if IsHex(extraNonce) {
        RangeInfoOfHex(param);
      }
    }
  }

  // ----- Texts that are not hexadecimal digits -------------------------------------------------------

  lemma ZeroIsNoSpace()
    ensures !IsSpace('0')
  {
  }

  lemma {:induction false} SpaceBeforeZeros(e: string, n: nat)
    ensures SkipSpace(e + Repeat('0', n)) == SkipSpace(e) + Repeat('0', n) && |SkipSpace(e)| <= |e|
  {
    hide IsSpace;
    var s := e + Repeat('0', n);
    if e == "" {
      ZeroIsNoSpace();
      assert s == Repeat('0', n);
    } else {
      assert s[0] == e[0] && s[1..] == e[1..] + Repeat('0', n);
      SpaceBeforeZeros(e[1..], n);
    }
  }

  lemma SignBeforeZeros(e: string, n: nat)
    ensures SkipSign(e + Repeat('0', n)) == SkipSign(e) + Repeat('0', n) && |SkipSign(e)| <= |e|
  {
    var s := e + Repeat('0', n);
    if e == "" {
      assert s == Repeat('0', n);
    } else {
      assert s[0] == e[0] && s[1..] == e[1..] + Repeat('0', n);
    }
  }

  /** The "0x" that is skipped lies before the zeros, although the digit after it may be one of them. */
  lemma PrefixBeforeZeros(e: string, n: nat) returns (u: string)
    ensures SkipPrefix(e + Repeat('0', n)) == u + Repeat('0', n) && |u| <= |e|
  {
    var s := e + Repeat('0', n);
    u := e;
    if SkipPrefix(s) != s {
      assert s[1] != '0';
      assert |e| >= 2 && s[2..] == e[2..] + Repeat('0', n);
      u := e[2..];
    }
  }

  /** Digits before the zeros either reach them and take them all in, or end before. */
  lemma {:induction false} DigitsBeforeZeros(u: string, n: nat)
    ensures HexPrefix(u + Repeat('0', n)) == if IsHex(u) then u + Repeat('0', n) else HexPrefix(u)
    ensures |HexPrefix(u)| <= |u|
  {
    var s := u + Repeat('0', n);
    if u == "" {
      assert s == Repeat('0', n);
      HexPrefixWhole(s);
    } else {
      assert s[0] == u[0] && s[1..] == u[1..] + Repeat('0', n);
      DigitsBeforeZeros(u[1..], n);
      assert IsHex(u) <==> HexDigit(u[0]).Some? && IsHex(u[1..]);
      assert u == [u[0]] + u[1..];
      if IsHex(u) {
        assert s == [u[0]] + (u[1..] + Repeat('0', n));
      }
    }
  }

  /** The digits that strtoull reads. */
  function Digits(s: string): (d: string)
    ensures IsHex(d)
  {
    HexPrefix(SkipPrefix(SkipSign(SkipSpace(s))))
  }

  predicate Negative(s: string) {
    var t := SkipSpace(s);
    t != "" && t[0] == '-'
  }

  /** Small numbers and multiples of a block leave room for the rest of the block. */
  lemma RoomForBlock(v: nat, h: nat, p: nat)
    requires h > 0 && p > 0 && v < h
    ensures v + p - 1 < h * p && v * p + p - 1 < h * p
  {
    LastBlock(v, h, p);
    MulMono(1, p, v);
    assert v * p == p * v;
  }

  /** Whatever the text, the digits read leave room for the gap, with the sign left aside. */
  lemma DigitsLeaveRoom(e: string, fill: nat)
    requires |e| + fill == 16
    ensures HexValue(Digits(e + Repeat('0', fill))) + Pow(16, fill) - 1 < U64
  {
    hide SkipSpace, SkipSign, SkipPrefix, HexPrefix, HexValue, Pow, Repeat;
    SpaceBeforeZeros(e, fill);
    SignBeforeZeros(SkipSpace(e), fill);
    var u := PrefixBeforeZeros(SkipSign(SkipSpace(e)), fill);
    DigitsBeforeZeros(u, fill);
    PowAdd(16, |e|, fill);
    Pow16Words();
    var x := if IsHex(u) then u else HexPrefix(u);
    HexValueBound(x);
    PowMono(16, |x|, |e|);
    RoomForBlock(HexValue(x), Pow(16, |e|), Pow(16, fill));
    if IsHex(u) {
      HexValueZeros(u, fill);
    }
  }

  /** The range stays within 64 bits exactly when the text has no minus sign before a number smaller than a block. */
  lemma RangeFitsExactly(param: string)
    ensures var e, info := Truncated(param), RangeInfo(param);
            var s := e + Repeat('0', 16 - |e|);
            info.startNonce + info.gapNonce < U64 <==>
            !(Negative(s) && 0 < HexValue(Digits(s)) < Pow(16, 16 - |e|))
  {
    var e := Truncated(param);
    var fill := 16 - |e|;
    hide SkipSpace, SkipSign, SkipPrefix, HexPrefix, HexValue, Pow, Repeat;
    DigitsLeaveRoom(e, fill);
    HexValueAllOnes(fill);
    StrToULLOfHex(Repeat('f', fill));
  }

  lemma MinusOneThenJunk(z: string)
    ensures Negative("-1z" + z) && HexValue(Digits("-1z" + z)) == 1 && StrToULL("-1z" + z) == U64 - 1
  {
    var s := "-1z" + z;
    var u := SkipSign(s);
    assert s[0] == '-' && SkipSpace(s) == s;
    assert u == "1z" + z && u[0] == '1' && u[1..][0] == 'z';
    assert SkipPrefix(u) == u;
    assert HexPrefix(u[1..]) == "";
    assert HexPrefix(u) == "1";
    assert HexValue("1") == 1;
  }

  lemma BlockOfDigits(n: nat)
    requires n > 0
    ensures Pow(16, n) >= 16
  {
    PowMono(16, 1, n);
    assert Pow(16, 1) == 16;
  }

  /** Such a text makes the range wrap: after "-1z" the search starts at the last nonce and has a gap. */
  lemma MalformedExtraNonceWraps()
    ensures var info := RangeInfo("-1z");
            info.startNonce == U64 - 1 && info.startNonce + info.gapNonce >= U64
  {
    hide StrToULL, HexValue, Pow, Repeat, Negative, Digits;
    var e := Truncated("-1z");
    assert e == "-1z";
    BlockOfDigits(16 - |e|);
    MinusOneThenJunk(Repeat('0', 16 - |e|));
    RangeFitsExactly("-1z");
  }

  // ----- DeviceManager and Device: the slices --------------------------------------------------------

  /** A job as the device with this id starts it: the nonce moves by the gap times the id. */
  function Shifted(job: NonceInfo, id: nat): NonceInfo {
    job.(nonce := (job.nonce + job.gapNonce * id) % U64)
  }

  class Device {
    const id: nat
    /** The pool connection it follows, if it has one. */
    const stratum: Option<nat>
    var nextJob: NonceInfo

    constructor (id: nat, stratum: Option<nat>)
      ensures this.id == id && this.stratum == stratum
    {
      this.id, this.stratum := id, stratum;
      nextJob := NonceInfo(0, 0, 1, 0, 0);
    }

    /** Takes over the job and moves to the device's slice. */
    method Update(newJob: NonceInfo)
      modifies this
      ensures nextJob == Shifted(newJob, id)
    {
      nextJob := newJob;
      nextJob := nextJob.(nonce := (nextJob.nonce + nextJob.gapNonce * id) % U64);
    }
  }

  /** What device `id` of n receives for a job. */
  function SliceJob(job: NonceInfo, n: nat, id: nat): NonceInfo
    requires n > 0
  {
    Shifted(job.(gapNonce := job.gapNonce / n), id)
  }

  /** A job: what tells it from the one before, and its nonces. */
  datatype Job = Job(epoch: int, header: int, headerBlob: int, nonces: NonceInfo)

  predicate Unchanged(last: Job, newJob: Job) {
    last.epoch == newJob.epoch && last.header == newJob.header && last.headerBlob == newJob.headerBlob
  }

  class DeviceManager {
    const devices: seq<Device?>
    /** In the standard profile a device follows its own stratum only. */
    const standard: bool
    var jobs: seq<Job>

    constructor (devices: seq<Device?>, standard: bool, jobs: seq<Job>)
      ensures this.devices == devices && this.standard == standard && this.jobs == jobs
    {
      this.devices, this.standard, this.jobs := devices, standard, jobs;
    }

    /** Whether device i takes the jobs of a stratum. */
    predicate Follows(i: nat, stratum: nat)
      requires i < |devices|
    {
      devices[i] != null && (standard ==> devices[i].stratum == Some(stratum))
    }

    method UpdateDevice(stratum: nat)
      requires stratum < |jobs|
      requires forall i, j | 0 <= i < j < |devices| :: devices[i] != null ==> devices[i] != devices[j]
      modifies set d | d in devices
      ensures forall i | 0 <= i < |devices| && devices[i] != null ::
                devices[i].nextJob == if Follows(i, stratum) then Shifted(jobs[stratum].nonces, devices[i].id)
                                      else old(devices[i].nextJob)
    {
      for k := 0 to |devices|
        invariant forall i | 0 <= i < |devices| && devices[i] != null ::
                    devices[i].nextJob == if i < k && Follows(i, stratum)
                                          then Shifted(jobs[stratum].nonces, devices[i].id)
                                          else old(devices[i].nextJob)
      {
        if devices[k] == null {
          continue;
        }
        if standard && devices[k].stratum != Some(stratum) {
          continue;
        }
        devices[k].Update(jobs[stratum].nonces);
      }
    }

    /**
     An unchanged job is skipped. For a new one the gap is divided once, whatever the job before was, and
     every device that follows the stratum gets its slice.
     */
    method OnUpdateJob(stratum: nat, newJob: Job)
      requires stratum < |jobs| && |devices| > 0
      requires forall i, j | 0 <= i < j < |devices| :: devices[i] != null ==> devices[i] != devices[j]
      modifies this, set d | d in devices
      ensures var n, same := |devices|, Unchanged(old(jobs[stratum]), newJob);
              && jobs == (if same then old(jobs)
                          else var gap := newJob.nonces.gapNonce / n;
                               old(jobs)[stratum := newJob.(nonces := newJob.nonces.(gapNonce := gap))])
              && forall i | 0 <= i < n && devices[i] != null ::
                   devices[i].nextJob == if !same && Follows(i, stratum) then SliceJob(newJob.nonces, n, devices[i].id)
                                         else old(devices[i].nextJob)
    {
      var last := jobs[stratum];
      var isSameEpoch := last.epoch == newJob.epoch;
      var isSameHeader := last.header == newJob.header;
      var isSameHeaderBlob := last.headerBlob == newJob.headerBlob;
      if isSameEpoch && isSameHeader && isSameHeaderBlob {
        return;
      }
      jobs := jobs[stratum := newJob];
      var gap := jobs[stratum].nonces.gapNonce / |devices|;
      jobs := jobs[stratum := jobs[stratum].(nonces := jobs[stratum].nonces.(gapNonce := gap))];
      UpdateDevice(stratum);
    }
  }

  /** The nonces of a slice. */
  ghost predicate InSlice(job: NonceInfo, nonce: int) {
    job.nonce <= nonce < job.nonce + job.gapNonce
  }

  lemma SliceEnd(gap: nat, n: nat, id: nat)
    requires id < n
    ensures 0 <= (gap / n) * id && (gap / n) * id + gap / n <= gap
  {
    Euclid(gap, n);
    var g := gap / n;
    MulMono(id + 1, n, g);
    Distribute(id, 1, 1, g);
    assert g * id == id * g && n * g == g * n;
  }

  /** The slice of a device starts where it should and ends within the range. */
  lemma SliceStart(info: NonceInfo, e: string, n: nat, id: nat)
    requires IsHex(e) && |e| <= 16 && RangeOf(info, e) && id < n
    ensures var job := SliceJob(info, n, id);
            && job.gapNonce == info.gapNonce / n && job.nonce == info.nonce + (info.gapNonce / n) * id
            && info.nonce <= job.nonce && job.nonce + job.gapNonce <= info.nonce + info.gapNonce < U64
  {
    hide HexValue, Pow;
    SliceEnd(info.gapNonce, n, id);
    var x := info.nonce + (info.gapNonce / n) * id;
    DivModUnique(x, 0, x, U64);
  }

  /** A slice lies inside the range of the extranonce, so it does not wrap and keeps the leading digits. */
  lemma SliceInRange(info: NonceInfo, e: string, n: nat, id: nat, nonce: int)
    requires IsHex(e) && |e| <= 16 && RangeOf(info, e) && id < n
    requires InSlice(SliceJob(info, n, id), nonce)
    ensures info.startNonce <= nonce < info.startNonce + info.gapNonce < U64
    ensures nonce / Pow(16, 16 - |e|) == HexValue(e)
  {
    SliceStart(info, e, n, id);
    hide HexValue, Pow, SliceJob;
    DivModUnique(nonce, HexValue(e), nonce - info.startNonce, Pow(16, 16 - |e|));
  }

  lemma Apart(g: nat, i: nat, j: nat)
    requires i != j
    ensures g * i + g <= g * j || g * j + g <= g * i
  {
    if i < j {
      MulMono(i + 1, j, g);
    } else {
      MulMono(j + 1, i, g);
    }
    Distribute(i, 1, 1, g);
    Distribute(j, 1, 1, g);
  }

  /** No nonce lies in the slices of two devices. */
  lemma SlicesDisjoint(info: NonceInfo, e: string, n: nat, i: nat, j: nat, nonce: int)
    requires IsHex(e) && |e| <= 16 && RangeOf(info, e) && i < n && j < n && i != j
    ensures !(InSlice(SliceJob(info, n, i), nonce) && InSlice(SliceJob(info, n, j), nonce))
  {
    SliceStart(info, e, n, i);
    SliceStart(info, e, n, j);
    hide RangeOf, SliceJob;
    Apart(info.gapNonce / n, i, j);
  }

  /** The nonce a device starts its k-th kernel from. */
  function KernelNonce(job: NonceInfo, batch: nat, k: nat): nat {
    (job.nonce + k * batch) % U64
  }

  lemma NextKernel(job: NonceInfo, batch: nat, k: nat)
    ensures (KernelNonce(job, batch, k) + batch) % U64 == KernelNonce(job, batch, k + 1)
  {
    var x := job.nonce + k * batch;
    Distribute(k, 1, 1, batch);
    ModDifference(x % U64 + batch, x + batch, -(x / U64), U64);
  }

  /** The work loop of a device: each kernel moves the nonce by one batch. */
  method Work(job: NonceInfo, batch: nat, kernels: nat) returns (nonce: nat)
    requires job.nonce < U64
    ensures nonce == KernelNonce(job, batch, kernels)
  {
    nonce := job.nonce;
    DivModUnique(nonce, 0, nonce, U64);
    for k := 0 to kernels
      invariant nonce == KernelNonce(job, batch, k)
    {
      NextKernel(job, batch, k);
      nonce := (nonce + batch) % U64;
    }
  }

  /** The nonces that the first kernels of a job try. */
  ghost predicate Tried(job: NonceInfo, batch: nat, kernels: nat, nonce: int) {
    exists k | 0 <= k < kernels :: KernelNonce(job, batch, k) <= nonce < KernelNonce(job, batch, k) + batch
  }

  lemma KernelInSlice(job: NonceInfo, batch: nat, k: nat)
    requires k * batch <= job.gapNonce && job.nonce + job.gapNonce < U64
    ensures KernelNonce(job, batch, k) == job.nonce + k * batch
  {
    DivModUnique(job.nonce + k * batch, 0, job.nonce + k * batch, U64);
  }

  lemma BatchesBefore(batch: nat, kernels: nat, k: nat)
    requires k < kernels
    ensures k * batch + batch <= kernels * batch
  {
    MulMono(k + 1, kernels, batch);
    Distribute(k, 1, 1, batch);
  }

  lemma KernelsFit(job: NonceInfo, batch: nat, kernels: nat, nonce: int)
    requires kernels * batch <= job.gapNonce && job.nonce + job.gapNonce < U64
    requires Tried(job, batch, kernels, nonce)
    ensures InSlice(job, nonce)
  {
    hide KernelNonce;
    var k: nat :| k < kernels && KernelNonce(job, batch, k) <= nonce < KernelNonce(job, batch, k) + batch;
    BatchesBefore(batch, kernels, k);
    KernelInSlice(job, batch, k);
  }

  lemma KernelsOverrun(job: NonceInfo, batch: nat, kernels: nat) returns (nonce: int)
    requires kernels * batch > job.gapNonce && job.nonce + job.gapNonce < U64 && batch > 0
    ensures Tried(job, batch, kernels, nonce) && !InSlice(job, nonce)
  {
    hide KernelNonce;
    var k := job.gapNonce / batch;
    Euclid(job.gapNonce, batch);
    QuotientBound(job.gapNonce, kernels, batch);
    KernelInSlice(job, batch, k);
    nonce := job.nonce + k * batch + batch - 1;
    assert KernelNonce(job, batch, k) <= nonce < KernelNonce(job, batch, k) + batch;
  }

  /** A device stays in its slice exactly as long as its kernels fit the gap. */
  lemma StaysInSlice(info: NonceInfo, e: string, n: nat, id: nat, batch: nat, kernels: nat)
    requires IsHex(e) && |e| <= 16 && RangeOf(info, e) && id < n && batch > 0
    ensures var job := SliceJob(info, n, id);
            kernels * batch <= job.gapNonce <==>
            forall nonce :: Tried(job, batch, kernels, nonce) ==> InSlice(job, nonce)
  {
    var job := SliceJob(info, n, id);
    SliceStart(info, e, n, id);
    hide RangeOf, SliceJob;
    if kernels * batch <= job.gapNonce {
      forall nonce | Tried(job, batch, kernels, nonce)
        ensures InSlice(job, nonce)
      {
        KernelsFit(job, batch, kernels, nonce);
      }
    } else {
      var nonce := KernelsOverrun(job, batch, kernels);
    }
  }
}
