/** The line `soprintln!` writes (src/lib.rs), once the clock, the thread
    and the shared-object address have been read: a wrapped millisecond
    timestamp, a beacon for the shared object, a beacon for the thread, and
    the message. */
module LinePrefix {
  import opened Words
  import opened Wrappers
  import opened Numerals
  import opened Beacons

  /** `str::strip_prefix`: the rest of `s` when it starts with `p`. */
  function StripPrefix(s: string, p: string): (r: Option<string>)
    ensures r.Some? <==> p <= s
    ensures r.Some? ==> p + r.value == s
  {
    if p <= s then Some(s[|p|..]) else None
  }

  /** `str::strip_suffix`: the front of `s` when it ends with `p`. */
  function StripSuffix(s: string, p: string): (r: Option<string>)
    ensures r.Some? <==> |p| <= |s| && s[|s| - |p|..] == p
    ensures r.Some? ==> r.value + p == s
  {
    if |p| <= |s| && s[|s| - |p|..] == p then Some(s[..|s| - |p|]) else None
  }

  const THREAD_ID_OPEN: string := "ThreadId("
  const THREAD_ID_CLOSE: string := ")"

  /** The numeric thread id in the `Debug` text of a `ThreadId`: the
      wrapper is removed where present, and whatever does not parse as a
      `u64` gives 0. */
  function ThreadIdOf(debug: string): (r: u64)
    ensures r != 0 ==> exists t: string ::
              && debug in {t, THREAD_ID_OPEN + t, t + THREAD_ID_CLOSE, THREAD_ID_OPEN + t + THREAD_ID_CLOSE}
              && ParseU64(t) == Some(r)
  {
    var t0 := StripPrefix(debug, THREAD_ID_OPEN).UnwrapOr(debug);
    var t := StripSuffix(t0, THREAD_ID_CLOSE).UnwrapOr(t0);
    assert debug == t0 || debug == THREAD_ID_OPEN + t0;
    assert t0 == t || t0 == t + THREAD_ID_CLOSE;
    assert THREAD_ID_OPEN + (t + THREAD_ID_CLOSE) == THREAD_ID_OPEN + t + THREAD_ID_CLOSE;
    ParseU64(t).UnwrapOr(0)
  }

  /** The id is read back from the `ThreadId(n)` form; a number too large
      for 64 bits gives 0. */
  lemma ThreadIdOfDebug(n: nat)
    ensures ThreadIdOf(THREAD_ID_OPEN + Dec(n) + THREAD_ID_CLOSE) == if n < U64_LIMIT then n else 0
  {
    ThreadIdOfWrapped(Dec(n));
    ParseU64OfDec(n);
  }

  /** Each half of the wrapper is removed only when present: a bare
      numeral is read as it is. */
  lemma ThreadIdOfBare(n: u64)
    ensures ThreadIdOf(Dec(n)) == n
  {
    var d := Dec(n);
    ParseU64OfDec(n);
    assert !(THREAD_ID_OPEN <= d) by { assert DigitValue(d[0]) < 10; }
    assert d[|d| - 1] != ')' by { assert DigitValue(d[|d| - 1]) < 10; }
  }

  /** A numeral with only the opening part of the wrapper. */
  lemma ThreadIdOfOpenOnly(n: u64)
    ensures ThreadIdOf(THREAD_ID_OPEN + Dec(n)) == n
  {
    var d := Dec(n);
    ParseU64OfDec(n);
    assert (THREAD_ID_OPEN + d)[|THREAD_ID_OPEN|..] == d;
    assert d[|d| - 1] != ')' by { assert DigitValue(d[|d| - 1]) < 10; }
  }

  /** A numeral with only the closing part of the wrapper. */
  lemma ThreadIdOfCloseOnly(n: u64)
    ensures ThreadIdOf(Dec(n) + THREAD_ID_CLOSE) == n
  {
    var d := Dec(n);
    var e := d + THREAD_ID_CLOSE;
    ParseU64OfDec(n);
    assert !(THREAD_ID_OPEN <= e) by { assert e[0] == d[0] && DigitValue(d[0]) < 10; }
    assert e[..|e| - 1] == d;
  }

  /** Inside the wrapper, the id text is parsed exactly as it is, whatever
      it holds. */
  lemma ThreadIdOfWrapped(t: string)
    ensures ThreadIdOf(THREAD_ID_OPEN + t + THREAD_ID_CLOSE) == ParseU64(t).UnwrapOr(0)
  {
    var s := THREAD_ID_OPEN + t + THREAD_ID_CLOSE;
    assert s[|THREAD_ID_OPEN|..] == t + THREAD_ID_CLOSE;
    assert (t + THREAD_ID_CLOSE)[..|t|] == t;
  }

  /** Inside the wrapper, an empty id, a character that is not a digit
      (a `+` sign counts only in front of further digits) and a number too
      large for 64 bits all give 0. */
  lemma ThreadIdOfMalformed(t: string, i: nat)
    requires || t == []
             || (i < |t| && DigitValue(t[i]) >= 10 && !(i == 0 && t[0] == '+' && |t| >= 2))
             || (t != [] && AllDigits(t, 10) && Value(t, 10) >= U64_LIMIT)
    ensures ThreadIdOf(THREAD_ID_OPEN + t + THREAD_ID_CLOSE) == 0
  {
    ThreadIdOfWrapped(t);
    if i < |t| && DigitValue(t[i]) >= 10 && !(i == 0 && t[0] == '+' && |t| >= 2) {
      ParseU64Refuses(t, i);
    }
  }

  /** The timestamp wraps at 99999 milliseconds. */
  const STAMP_MODULUS: nat := 99999

  /** `{:05}`: a decimal numeral left-padded with zeros to width 5. */
  function ZeroPad(s: string, width: nat): (r: string)
    ensures |r| == if |s| < width then width else |s|
    ensures r[|r| - |s|..] == s
    ensures forall i | 0 <= i < |r| - |s| :: r[i] == '0'
  {
    if |s| < width then seq(width - |s|, _ => '0') + s else s
  }

  /** The timestamp field: `ms % 99999` rendered with `{:05}`. */
  function Stamp(ms: nat): (r: string)
    ensures |r| == 5 && AllDigits(r, 10)
    ensures Value(r, 10) == ms % STAMP_MODULUS
  {
    var n := ms % STAMP_MODULUS;
    var digits := Dec(n);
    FormatWidth(n, 10, 5);
    ValueOfFormat(n, 10);
    var r := ZeroPad(digits, 5);
    assert r == seq(5 - |digits|, _ => '0') + digits;
    ValueWithLeadingZeros(5 - |digits|, digits);
    r
  }

  lemma ConcatParts(a: string, sp: char, m: string, c: string)
    ensures var s := a + [sp] + m + c;
            && s[..|a|] == a
            && s[|a|] == sp
            && s[|a| + 1..|s| - |c|] == m
            && s[|s| - |c|..] == c
  {
    var s := a + [sp] + m + c;
    assert s == a + ([sp] + (m + c));
  }

  /** The `rubicon` linkage mode, fixed at build time by cargo features. */
  datatype Mode = Import | Export | Normal

  /** `RUBICON_MODE`. */
  function ModeLetter(m: Mode): (r: string)
    ensures |r| == 1
  {
    match m
    case Import => "I"
    case Export => "E"
    case Normal => "N"
  }

  /** The name of an unnamed thread. */
  const UNNAMED: string := "<unnamed>"

  /** The text `eprintln!` writes for one call. The clock reading, the
      shared-object address, the thread's name and the `Debug` text of its
      id are inputs, as is the colour derivation. */
  function Line(ms: nat, mode: Mode, sharedObject: u64, threadName: Option<string>,
                threadDebug: string, message: string, paint: u64 -> Palette): (r: string)
    ensures |r| > |message| + 6
    ensures AllDigits(r[..5], 10) && Value(r[..5], 10) == ms % STAMP_MODULUS
    ensures r[5] == ' '
    ensures r[6..|r| - |message| - 1]
            == Render(New(ModeLetter(mode), sharedObject, paint)) + " "
               + Render(New(threadName.UnwrapOr(UNNAMED), ThreadIdOf(threadDebug), paint)) + " "
    ensures r[|r| - |message| - 1..] == message + "\n"
  {
    var so := Render(New(ModeLetter(mode), sharedObject, paint));
    var thread := Render(New(threadName.UnwrapOr(UNNAMED), ThreadIdOf(threadDebug), paint));
    var stamp := Stamp(ms);
    var beacons := so + " " + thread + " ";
    var ending := message + "\n";
    ConcatParts(stamp, ' ', beacons, ending);
    stamp + [' '] + beacons + ending
  }
}
