/**
 * The Android SDK's diagnostic logger (a Timber tree).
 *
 * Three pieces:
 *  - the tag derivation from a caller's class name (strip trailing
 *    anonymous-class groups `$1$2`, drop the package, truncate to 23
 *    characters before API level 24);
 *  - the splitting of a long message into parts bounded by newlines and by
 *    the platform's 4000-character line limit;
 *  - the local log buffer, which collects time-stamped lines and writes them
 *    to an hourly file only when a second has passed since the last write or
 *    the buffer has grown past its limit.
 *
 * The logger's static state (the flags, the buffer, the time of the last
 * write) is held by one `LogTree` object.  The platform log is a sequence of
 * `Emission`s the object appends to; the file system is the sequence of
 * `FileWrite`s it has made.
 */
module DebugTree {
  import opened Wrappers
  import opened Text

  const TAG: string := "OpacityAndroid"
  const MAX_LOG_LENGTH: nat := 4000
  const MAX_TAG_LENGTH: nat := 23
  const CALL_STACK_INDEX: nat := 6
  /** Default of the buffer size beyond which a write is forced. */
  const LOG_WRITE_LIMIT: int := 22000
  /** Minimum time between two writes of the buffer, in milliseconds. */
  const MIN_WRITE_INTERVAL: int := 1000
  /** Android's `Log.ASSERT` priority. */
  const ASSERT: int := 7
  /** API level 24 (Android N), from which the tag length limit is gone. */
  const SDK_N: int := 24

  // ---------------------------------------------------------------------
  // Tag derivation

  predicate IsDigit(c: char) { '0' <= c <= '9' }

  predicate AllDigits(s: string) { forall k :: 0 <= k < |s| ==> IsDigit(s[k]) }

  /** Length of the run of decimal digits at the end of `s`. */
  function DigitRun(s: string): (d: nat)
    ensures d <= |s|
    ensures AllDigits(s[|s| - d..])
    ensures d < |s| ==> !IsDigit(s[|s| - d - 1])
  {
    if s == [] || !IsDigit(s[|s| - 1]) then 0
    else
      var t := s[..|s| - 1];
      var e := DigitRun(t);
      assert s[|s| - e - 1..] == t[|t| - e..] + [s[|s| - 1]];
      e + 1
  }

  /**
   * Length of the suffix of `s` that the pattern `($digits)+` anchored at the
   * end matches: the longest run of `$` + digits groups.  The leftmost match
   * of an end-anchored pattern is the longest one, and that is the one
   * `replaceAll` removes.
   */
  function AnonymousSuffix(s: string): (n: nat)
    ensures n <= |s|
    ensures n > 0 ==> s[|s| - n] == '$' && IsDigit(s[|s| - 1])
    ensures n > 0 ==> DollarGroups(s[|s| - n..])
    decreases |s|
  {
    var d := DigitRun(s);
    if 0 < d < |s| && s[|s| - d - 1] == '$' then
      var a := AnonymousSuffix(s[..|s| - d - 1]);
      GroupsStep(s, d, a);
      d + 1 + a
    else 0
  }

  /**
   * `s` is one or more `$digits` groups, the language of `($[0-9]+)+`: it
   * starts with `$`, ends with a digit, holds nothing but `$` and digits,
   * and every `$` is followed by a digit.
   */
  predicate DollarGroups(s: string)
  {
    |s| >= 2 && s[0] == '$' && IsDigit(s[|s| - 1]) &&
    (forall k :: 0 <= k < |s| ==> s[k] == '$' || IsDigit(s[k])) &&
    (forall k :: 0 <= k < |s| - 1 && s[k] == '$' ==> IsDigit(s[k + 1]))
  }

  /** One more `$digits` group after some groups (or none) still makes groups. */
  lemma GroupsThenGroup(p: string, g: string)
    requires p == [] || DollarGroups(p)
    requires |g| >= 2 && g[0] == '$' && AllDigits(g[1..])
    ensures DollarGroups(p + g)
  {
    var u := p + g;
    assert forall k :: 1 <= k < |g| ==> g[k] == g[1..][k - 1];
    forall k | 0 <= k < |u| - 1 && u[k] == '$'
      ensures IsDigit(u[k + 1])
    {
      if k < |p| - 1 {
        assert u[k] == p[k] && u[k + 1] == p[k + 1];
      } else if k == |p| - 1 {
        assert u[k] == p[k];
      } else {
        assert u[k + 1] == g[k + 1 - |p|];
      }
    }
    forall k | 0 <= k < |u|
      ensures u[k] == '$' || IsDigit(u[k])
    {
      if k < |p| {
        assert u[k] == p[k];
      } else {
        assert u[k] == g[k - |p|];
      }
    }
  }

  /** Groups at the end of `s` minus its last `$digits` group, then that group, are groups at the end of `s`. */
  lemma GroupsStep(s: string, d: nat, a: nat)
    requires 0 < d < |s| && AllDigits(s[|s| - d..]) && s[|s| - d - 1] == '$' && a <= |s| - d - 1
    requires a > 0 ==> DollarGroups(s[..|s| - d - 1][|s| - d - 1 - a..])
    ensures DollarGroups(s[|s| - d - 1 - a..])
  {
    var t := s[..|s| - d - 1];
    var g := s[|s| - d - 1..];
    assert g[1..] == s[|s| - d..];
    assert s[|s| - d - 1 - a..] == t[|t| - a..] + g;
    GroupsThenGroup(t[|t| - a..], g);
  }

  /** No suffix longer than the one `AnonymousSuffix` measures is made of `$digits` groups. */
  lemma {:induction false} AnonymousSuffixLongest(s: string)
    ensures forall i :: 0 <= i < |s| - AnonymousSuffix(s) ==> !DollarGroups(s[i..])
    decreases |s|
  {
    var n := AnonymousSuffix(s);
    var d := DigitRun(s);
    if 0 < d < |s| && s[|s| - d - 1] == '$' {
      var t := s[..|s| - d - 1];
      AnonymousSuffixLongest(t);
      forall i | 0 <= i < |s| - n
        ensures !DollarGroups(s[i..])
      {
        GroupsDropLast(s, d, i);
      }
    } else {
      forall i | 0 <= i < |s|
        ensures !DollarGroups(s[i..])
      {
        NoLastGroup(s, i);
      }
    }
  }

  /** Groups that start before the last `$digits` group of `s` still are groups without it. */
  lemma GroupsDropLast(s: string, d: nat, i: nat)
    requires 0 < d < |s| && s[|s| - d - 1] == '$' && i < |s| - d - 1
    ensures DollarGroups(s[i..]) ==> DollarGroups(s[..|s| - d - 1][i..])
  {
    var w := s[i..];
    var t := s[..|s| - d - 1];
    if DollarGroups(w) {
      var j := |t| - 1 - i;
      assert w[j] == s[|s| - d - 2];
      assert w[j + 1] == '$';
      assert t[i..] == w[..j + 1];
    }
  }

  /** Without a `$digits` group at its end, no suffix of `s` is made of groups. */
  lemma NoLastGroup(s: string, i: nat)
    requires i < |s| && !(0 < DigitRun(s) < |s| && s[|s| - DigitRun(s) - 1] == '$')
    ensures !DollarGroups(s[i..])
  {
    var d := DigitRun(s);
    var w := s[i..];
    assert AllDigits(s[|s| - d..]);
    assert w[|w| - 1] == s[|s| - 1];
    assert i < |s| - d ==> w[|s| - d - 1 - i] == s[|s| - d - 1];
    assert i >= |s| - d ==> w[0] == s[|s| - d..][i - (|s| - d)];
  }

  /** The class name with its anonymous-class suffix removed. */
  function StripAnonymous(s: string): (r: string)
    ensures |r| == |s| - AnonymousSuffix(s) && r == s[..|r|]
    ensures AnonymousSuffix(r) == 0
    decreases |s|
  {
    var d := DigitRun(s);
    if 0 < d < |s| && s[|s| - d - 1] == '$' then
      var t := s[..|s| - d - 1];
      var r := StripAnonymous(t);
      assert t[..|r|] == s[..|r|];
      r
    else s
  }

  /** `tag.substring(tag.lastIndexOf('.') + 1)`: the simple class name. */
  function AfterLastDot(s: string): (r: string)
    ensures '.' !in r
    ensures |r| <= |s| && r == s[|s| - |r|..]
    ensures |r| < |s| ==> s[|s| - |r| - 1] == '.'
  {
    s[LastIndexOf(s, '.') + 1..]
  }

  /**
   * `getClass`: the tag for a caller's class name.  The tag has no package
   * part; it is the stripped simple name, cut to 23 characters only on API
   * levels below 24.
   */
  function GetClass(className: string, sdk: int): (tag: string)
    ensures '.' !in tag
    ensures sdk < SDK_N ==> |tag| <= MAX_TAG_LENGTH
    ensures var simple := AfterLastDot(StripAnonymous(className));
            |tag| <= |simple| && tag == simple[..|tag|]
    ensures tag != AfterLastDot(StripAnonymous(className)) ==>
              sdk < SDK_N && |tag| == MAX_TAG_LENGTH
  {
    CutTag(AfterLastDot(StripAnonymous(className)), sdk)
  }

  /** The length rule of `getClass` applied to a simple name. */
  function CutTag(simple: string, sdk: int): (tag: string)
    ensures '.' !in simple ==> '.' !in tag
    ensures sdk < SDK_N ==> |tag| <= MAX_TAG_LENGTH
    ensures |tag| <= |simple| && tag == simple[..|tag|]
    ensures tag != simple ==> sdk < SDK_N && |tag| == MAX_TAG_LENGTH
  {
    if |simple| <= MAX_TAG_LENGTH || sdk >= SDK_N then
      assert simple[..|simple|] == simple;
      simple
    else
      simple[..MAX_TAG_LENGTH]
  }

  /** A nested anonymous class in a package gets its outer simple name as tag. */
  lemma GetClassAnonymousExample()
    ensures GetClass("com.x.Foo$1$2", 23) == "Foo"
  {
    var s := "com.x.Foo$1$2";
    assert DigitRun(s) == 1;
    assert DigitRun(s[..11]) == 1;
    assert s[..11][..9] == "com.x.Foo";
    assert DigitRun("com.x.Foo") == 0;
    assert StripAnonymous(s) == "com.x.Foo";
    var t := "com.x.Foo";
    assert t[5] == '.' && t[6] == 'F' && t[7] == 'o' && t[8] == 'o';
    assert LastIndexOf(t, '.') == 5;
  }

  /** Where a stack lookup fails. */
  datatype StackFault =
    | IndexOutOfBounds         // the array access itself throws
    | SyntheticStackTooShort   // the IllegalStateException the code means to raise

  /**
   * `getPrefix` as written: the frame at index 6 is read before the length
   * guard, so a stack of six frames or fewer throws the index error and the
   * guard's own exception is never raised.  The stack is given as the class
   * names of its frames.
   */
  function GetPrefixAsWritten(stack: seq<string>, sdk: int): (r: Result<string, StackFault>)
    ensures r.Err? <==> |stack| <= CALL_STACK_INDEX
    ensures r.Err? ==> r.error == IndexOutOfBounds
    ensures r.Ok? ==> r.value == GetClass(stack[CALL_STACK_INDEX], sdk)
  {
    if |stack| <= CALL_STACK_INDEX then Err(IndexOutOfBounds)
    else Ok(GetClass(stack[CALL_STACK_INDEX], sdk))
  }

  /** `getPrefix` with the guard before the access, as evidently intended. */
  function GetPrefix(stack: seq<string>, sdk: int): (r: Result<string, StackFault>)
    ensures r.Err? <==> |stack| <= CALL_STACK_INDEX
    ensures r.Err? ==> r.error == SyntheticStackTooShort
    ensures r.Ok? ==> r.value == GetClass(stack[CALL_STACK_INDEX], sdk)
  {
    if |stack| <= CALL_STACK_INDEX then Err(SyntheticStackTooShort)
    else Ok(GetClass(stack[CALL_STACK_INDEX], sdk))
  }

  /** On an empty stack the as-written lookup fails with the wrong error. */
  lemma GetPrefixGuardUnreachable(sdk: int)
    ensures GetPrefixAsWritten([], sdk) == Err(IndexOutOfBounds)
    ensures GetPrefix([], sdk) == Err(SyntheticStackTooShort)
  {
  }

  // ---------------------------------------------------------------------
  // Splitting a long message

  /** One emitted piece of a long message; `brk` marks that a newline of the message follows it. */
  datatype Part = Part(text: string, brk: bool)

  predicate Emittable(p: Part)
  {
    |p.text| <= MAX_LOG_LENGTH && '\n' !in p.text
  }

  predicate AllEmittable(ps: seq<Part>)
  {
    forall k :: 0 <= k < |ps| ==> Emittable(ps[k])
  }

  /** The emitted pieces put back together, one newline per consumed line break. */
  function Render(ps: seq<Part>): string
  {
    if ps == [] then "" else ps[0].text + (if ps[0].brk then "\n" else "") + Render(ps[1..])
  }

  lemma {:induction false} RenderAppend(a: seq<Part>, b: seq<Part>)
    ensures Render(a + b) == Render(a) + Render(b)
  {
    if a == [] {
      assert a + b == b;
    } else {
      assert (a + b)[1..] == a[1..] + b;
      RenderAppend(a[1..], b);
    }
  }

  /** `message.indexOf('\n', i)`, or the message length when there is none. */
  function NextNewline(m: string, i: nat): (nl: nat)
    requires i <= |m|
    ensures i <= nl <= |m|
    ensures '\n' !in m[i..nl]
    ensures nl < |m| ==> m[nl] == '\n'
  {
    var r := IndexOfFrom(m, '\n', i);
    if r == -1 then |m| else r
  }

  /**
   * The pieces the inner do-while loop emits for the line `m[i..nl)`: the
   * text up to the newline in slices of 4000 characters, at least one piece
   * (an empty line emits an empty piece); the last is followed by the
   * newline, if there is one.
   */
  function LineChunks(m: string, i: nat, nl: nat): (ps: seq<Part>)
    requires i <= nl <= |m|
    ensures |ps| >= 1
    decreases nl - i
  {
    if nl - i <= MAX_LOG_LENGTH then [Part(m[i..nl], nl < |m|)]
    else [Part(m[i..i + MAX_LOG_LENGTH], false)] + LineChunks(m, i + MAX_LOG_LENGTH, nl)
  }

  /** Every chunk of a line fits the platform line and holds no newline; together they are the line. */
  lemma {:induction false} LineChunksSound(m: string, i: nat, nl: nat)
    requires i <= nl <= |m|
    requires '\n' !in m[i..nl]
    ensures AllEmittable(LineChunks(m, i, nl))
    ensures Render(LineChunks(m, i, nl)) == m[i..nl] + (if nl < |m| then "\n" else "")
    decreases nl - i
  {
    var ps := LineChunks(m, i, nl);
    if nl - i <= MAX_LOG_LENGTH {
      assert ps[1..] == [];
    } else {
      var first := Part(m[i..i + MAX_LOG_LENGTH], false);
      var rest := LineChunks(m, i + MAX_LOG_LENGTH, nl);
      assert m[i..nl] == first.text + m[i + MAX_LOG_LENGTH..nl];
      LineChunksSound(m, i + MAX_LOG_LENGTH, nl);
      assert ps == [first] + rest && ps[1..] == rest;
    }
  }

  /** The pieces the outer loop emits from position `i` on. */
  function PartsFrom(m: string, i: nat): seq<Part>
    decreases |m| + 1 - i
  {
    if i >= |m| then []
    else
      var nl := NextNewline(m, i);
      LineChunks(m, i, nl) + PartsFrom(m, nl + 1)
  }

  lemma RenderLineThenRest(m: string, i: nat, nl: nat, line: seq<Part>, rest: seq<Part>)
    requires i <= nl < |m| && m[nl] == '\n'
    requires Render(line) == m[i..nl] + "\n" && Render(rest) == m[nl + 1..]
    ensures Render(line + rest) == m[i..]
  {
    RenderAppend(line, rest);
    SliceAtNewline(m, i, nl);
  }

  lemma SliceAtNewline(m: string, i: nat, nl: nat)
    requires i <= nl < |m| && m[nl] == '\n'
    ensures m[i..] == m[i..nl] + "\n" + m[nl + 1..]
  {
    assert m[i..] == m[i..nl] + m[nl..];
    assert m[nl..] == [m[nl]] + m[nl + 1..];
  }

  /** The pieces from position `i` on render as the rest of the message. */
  lemma {:induction false} PartsFromRender(m: string, i: nat)
    requires i <= |m|
    ensures Render(PartsFrom(m, i)) == m[i..]
    decreases |m| - i
  {
    if i < |m| && NextNewline(m, i) < |m| {
      PartsFromRender(m, NextNewline(m, i) + 1);
      RenderInnerLine(m, i);
    } else {
      RenderLastLine(m, i);
    }
  }

  /** A line ended by a newline renders as itself, its newline, then what follows. */
  lemma RenderInnerLine(m: string, i: nat)
    requires i < |m| && NextNewline(m, i) < |m|
    requires Render(PartsFrom(m, NextNewline(m, i) + 1)) == m[NextNewline(m, i) + 1..]
    ensures Render(PartsFrom(m, i)) == m[i..]
  {
    var nl := NextNewline(m, i);
    var line, rest := LineChunks(m, i, nl), PartsFrom(m, nl + 1);
    PartsFromStep(m, i);
    LineChunksSound(m, i, nl);
    RenderLineThenRest(m, i, nl, line, rest);
  }

  /** One unfolding of `PartsFrom` at a position inside the message. */
  lemma PartsFromStep(m: string, i: nat)
    requires i < |m|
    ensures PartsFrom(m, i) == LineChunks(m, i, NextNewline(m, i)) + PartsFrom(m, NextNewline(m, i) + 1)
  {
  }

  /** The last line, with no newline after it, renders as the rest of the message; so does the empty rest. */
  lemma RenderLastLine(m: string, i: nat)
    requires i <= |m| && (i < |m| ==> NextNewline(m, i) == |m|)
    ensures Render(PartsFrom(m, i)) == m[i..]
  {
    if i == |m| {
      assert PartsFrom(m, i) == [] && m[i..] == [];
      return;
    }
    var nl := NextNewline(m, i);
    var line := LineChunks(m, i, nl);
    assert PartsFrom(m, nl + 1) == [];
    assert PartsFrom(m, i) == line + [] == line;
    LineChunksSound(m, i, nl);
    assert m[i..nl] + "" == m[i..];
  }

  /** Every piece from position `i` on fits the platform line and holds no newline. */
  lemma {:induction false} PartsFromEmittable(m: string, i: nat)
    ensures AllEmittable(PartsFrom(m, i))
    decreases |m| + 1 - i
  {
    if i < |m| {
      var nl := NextNewline(m, i);
      var line, rest := LineChunks(m, i, nl), PartsFrom(m, nl + 1);
      assert PartsFrom(m, i) == line + rest;
      LineChunksSound(m, i, nl);
      PartsFromEmittable(m, nl + 1);
      AllEmittableAppend(line, rest);
    }
  }

  lemma AllEmittableAppend(a: seq<Part>, b: seq<Part>)
    requires AllEmittable(a) && AllEmittable(b)
    ensures AllEmittable(a + b)
  {
    assert forall k :: 0 <= k < |a + b| ==> (a + b)[k] == if k < |a| then a[k] else b[k - |a|];
  }

  /**
   * All the pieces of a message sent down the long path: every piece fits the
   * platform line and holds no newline, and the pieces with the consumed
   * newlines give back the message exactly.
   */
  lemma PartsRoundTrip(m: string)
    ensures AllEmittable(PartsFrom(m, 0))
    ensures Render(PartsFrom(m, 0)) == m
  {
    PartsFromRender(m, 0);
    PartsFromEmittable(m, 0);
    assert m[0..] == m;
  }

  // ---------------------------------------------------------------------
  // The platform log and the local buffer

  /** One call into the platform log. */
  datatype Emission =
    | Wtf(tag: string, msg: string)
    | Println(priority: int, tag: string, msg: string)
    /** `Log.e(tag, msg + e)`; the exception's own text is not modelled. */
    | Error(tag: string, msg: string)

  /** What a failed write of the local log reports to the platform log. */
  const SAVE_FAILED: string := "can't save log locally - e:"

  /** The platform call for one piece of a long message: no prefix, always the fixed tag. */
  function Emit(priority: int, text: string): (e: Emission)
    ensures e.tag == TAG && e.msg == text
    ensures e.Wtf? <==> priority == ASSERT
  {
    if priority == ASSERT then Wtf(TAG, text) else Println(priority, TAG, text)
  }

  function Emits(priority: int, ps: seq<Part>): (es: seq<Emission>)
    ensures |es| == |ps|
  {
    if ps == [] then [] else Emits(priority, ps[..|ps| - 1]) + [Emit(priority, ps[|ps| - 1].text)]
  }

  function Texts(ps: seq<Part>): (ts: seq<string>)
    ensures |ts| == |ps|
  {
    if ps == [] then [] else Texts(ps[..|ps| - 1]) + [ps[|ps| - 1].text]
  }

  /** Two decimal digits reading back as `n`, the zero-padded "mm" and "ss" fields. */
  function Pad2(n: nat): (r: string)
    requires n < 100
    ensures |r| == 2 && IsDigit(r[0]) && IsDigit(r[1])
    ensures DecimalValue(r) == n
  {
    var r := [DigitChar(n / 10), DigitChar(n % 10)];
    assert r[..1][..0] == [] && r[..1] == [r[0]];
    assert DecimalValue(r[..1]) == n / 10;
    r
  }

  /** Three decimal digits reading back as `n`, the zero-padded "SSS" field. */
  function Pad3(n: nat): (r: string)
    requires n < 1000
    ensures |r| == 3 && IsDigit(r[0]) && IsDigit(r[1]) && IsDigit(r[2])
    ensures DecimalValue(r) == n
  {
    var r := [DigitChar(n / 100), DigitChar(n / 10 % 10), DigitChar(n % 10)];
    assert r[..2] == Pad2(n / 10) by {
      assert n / 10 / 10 == n / 100;
    }
    assert n == n / 10 * 10 + n % 10;
    r
  }

  /** The hour on a 12-hour clock, 1 to 12, for a millisecond timestamp. */
  function Hour12(now: int): (h: nat)
    ensures 1 <= h <= 12
    ensures h % 12 == (now / 3600000) % 24 % 12
  {
    var h24 := (now / 3600000) % 24;
    if h24 % 12 == 0 then 12 else h24 % 12
  }

  /**
   * The `hh:mm:ss.SSS` rendering of a millisecond timestamp: the fields
   * read back as the hour on the 12-hour clock, the minute, the second and
   * the millisecond.
   */
  function TimeLabel(now: int): (r: string)
    ensures |r| == 12 && r[2] == ':' && r[5] == ':' && r[8] == '.'
    ensures r[0] == '0' || r[0] == '1'
    ensures AllDigits(r[..2]) && AllDigits(r[3..5]) && AllDigits(r[6..8]) && AllDigits(r[9..])
    ensures DecimalValue(r[..2]) == Hour12(now)
    ensures DecimalValue(r[3..5]) == now / 60000 % 60
    ensures DecimalValue(r[6..8]) == now / 1000 % 60
    ensures DecimalValue(r[9..]) == now % 1000
  {
    var h, m, sec, ms := Pad2(Hour12(now)), Pad2((now / 60000) % 60), Pad2((now / 1000) % 60), Pad3(now % 1000);
    LabelFields(h, m, sec, ms);
    h + ":" + m + ":" + sec + "." + ms
  }

  /** Where the four fields of a time label sit. */
  lemma LabelFields(h: string, m: string, sec: string, ms: string)
    requires |h| == |m| == |sec| == 2 && |ms| == 3
    ensures var r := h + ":" + m + ":" + sec + "." + ms;
            |r| == 12 && r[2] == ':' && r[5] == ':' && r[8] == '.' && r[0] == h[0] &&
            r[..2] == h && r[3..5] == m && r[6..8] == sec && r[9..] == ms
  {
    var r := h + ":" + m + ":" + sec + "." + ms;
    assert r == h + (":" + m) + (":" + sec) + ("." + ms);
  }

  /** The line the buffer receives for one message: the bracketed time label, a space, the message and a newline. */
  function LogLine(now: int, msg: string): (line: string)
    ensures |line| == |msg| + 16
    ensures line[..14] == "[" + TimeLabel(now) + "]" && line[14] == ' '
    ensures line[15..|line| - 1] == msg
    ensures line[|line| - 1] == '\n'
  {
    var line := "[" + TimeLabel(now) + "] " + msg + "\n";
    assert line[..14] == "[" + TimeLabel(now) + "]";
    assert line[15..|line| - 1] == msg;
    line
  }

  /** The lines of a sequence of messages logged at one instant. */
  function LogLines(now: int, msgs: seq<string>): string
  {
    if msgs == [] then "" else LogLines(now, msgs[..|msgs| - 1]) + LogLine(now, msgs[|msgs| - 1])
  }

  /** One append to the hourly log file; `hour` identifies the file (hours since the epoch). */
  datatype FileWrite = FileWrite(hour: int, data: string)

  /** The hour `now` falls in, counted in whole hours since the epoch. */
  function HourOf(now: int): (h: int)
    ensures h * 3600000 <= now < (h + 1) * 3600000
  {
    now / 3600000
  }

  /** Everything written to the files, in order. */
  function Written(ws: seq<FileWrite>): string
  {
    if ws == [] then "" else Written(ws[..|ws| - 1]) + ws[|ws| - 1].data
  }

  /** The buffer holds whole lines only. */
  predicate WholeLines(s: string)
  {
    s == [] || s[|s| - 1] == '\n'
  }

  /** The rule under which the buffer is written: a second has passed or it is over the limit. */
  predicate WriteDue(buffer: string, lastWrite: int, now: int, limit: int)
  {
    now - lastWrite >= MIN_WRITE_INTERVAL || |buffer| > limit
  }

  /** The buffering state: the buffer, the time of the last write, the writes made and the failed writes reported. */
  datatype Buffered = Buffered(buffer: string, lastWrite: int, writes: seq<FileWrite>, faults: nat)

  /**
   * `saveToLocal`: when the message does not reach the buffer (`enabled`
   * false: no cache directory, or the caller does not save) nothing happens.
   * Otherwise the line joins the buffer; if the write rule fires, the buffer
   * goes to the file of the current hour and is emptied, the write time
   * being `doneAt`, or, when the write fails, one fault is reported and
   * nothing else changes.  The buffer keeps holding whole lines.
   */
  function Save(b: Buffered, enabled: bool, limit: int, msg: string, now: int, writeOk: bool, doneAt: int): (r: Buffered)
    ensures !enabled ==> r == b
    ensures WholeLines(b.buffer) ==> WholeLines(r.buffer)
  {
    if !enabled then b
    else
      var buffer := b.buffer + LogLine(now, msg);
      if !WriteDue(buffer, b.lastWrite, now, limit) then b.(buffer := buffer)
      else if writeOk then Buffered("", doneAt, b.writes + [FileWrite(HourOf(now), buffer)], b.faults)
      else b.(buffer := buffer, faults := b.faults + 1)
  }

  /**
   * What `saveToLocal` sends to the platform log: one error exactly when it
   * reports a failed write, nothing otherwise.
   */
  function SaveReport(b: Buffered, enabled: bool, limit: int, msg: string, now: int, writeOk: bool): (es: seq<Emission>)
    ensures es == [] || es == [Error(TAG, SAVE_FAILED)]
    ensures es != [] <==> Save(b, enabled, limit, msg, now, writeOk, now).faults == b.faults + 1
    ensures writeOk ==> es == []
  {
    if enabled && WriteDue(b.buffer + LogLine(now, msg), b.lastWrite, now, limit) && !writeOk
    then [Error(TAG, SAVE_FAILED)] else []
  }

  /**
   * The write rule: the buffer, with the new line, is written exactly when a
   * second has passed since the last write or it is over the limit.  A
   * successful write empties the buffer and records the write time; a failed
   * one leaves buffer and write time as they were, apart from the new line.
   */
  lemma SaveWriteRule(b: Buffered, limit: int, msg: string, now: int, writeOk: bool, doneAt: int)
    ensures var r := Save(b, true, limit, msg, now, writeOk, doneAt);
            var buffer := b.buffer + LogLine(now, msg);
            (!WriteDue(buffer, b.lastWrite, now, limit) ==> r == b.(buffer := buffer)) &&
            (WriteDue(buffer, b.lastWrite, now, limit) && writeOk ==>
               r.buffer == "" && r.lastWrite == doneAt && r.faults == b.faults &&
               r.writes == b.writes + [FileWrite(HourOf(now), buffer)]) &&
            (WriteDue(buffer, b.lastWrite, now, limit) && !writeOk ==>
               r == b.(buffer := buffer, faults := b.faults + 1))
  {
  }

  /** No text is lost or duplicated: what was written plus what is buffered grows by exactly the new line. */
  lemma SaveConserves(b: Buffered, limit: int, msg: string, now: int, writeOk: bool, doneAt: int)
    ensures var r := Save(b, true, limit, msg, now, writeOk, doneAt);
            Written(r.writes) + r.buffer == Written(b.writes) + b.buffer + LogLine(now, msg)
  {
    var r := Save(b, true, limit, msg, now, writeOk, doneAt);
    if |r.writes| > |b.writes| {
      assert r.writes[..|r.writes| - 1] == b.writes;
    }
  }

  /** `saveToLocal` over several messages logged at one instant. */
  function SaveAll(b: Buffered, enabled: bool, limit: int, msgs: seq<string>, now: int, writeOk: bool): (r: Buffered)
    ensures !enabled ==> r == b
    ensures WholeLines(b.buffer) ==> WholeLines(r.buffer)
  {
    if msgs == [] then b
    else
      var prev := SaveAll(b, enabled, limit, msgs[..|msgs| - 1], now, writeOk);
      Save(prev, enabled, limit, msgs[|msgs| - 1], now, writeOk, now)
  }

  /**
   * The platform calls for the pieces `ps` of a long message, each followed
   * by the error its local save reports, if any.
   */
  function EmitsSaving(start: Buffered, priority: int, enabled: bool, limit: int, ps: seq<Part>, now: int, writeOk: bool): (es: seq<Emission>)
    ensures |es| >= |ps|
  {
    if ps == [] then []
    else
      var init := ps[..|ps| - 1];
      var text := ps[|ps| - 1].text;
      EmitsSaving(start, priority, enabled, limit, init, now, writeOk) + [Emit(priority, text)] +
      SaveReport(SaveAll(start, enabled, limit, Texts(init), now, writeOk), enabled, limit, text, now, writeOk)
  }

  /** When every write succeeds, or nothing is saved, the pieces go out as they are and nothing else. */
  lemma {:induction false} EmitsSavingQuiet(start: Buffered, priority: int, enabled: bool, limit: int, ps: seq<Part>, now: int, writeOk: bool)
    requires writeOk || !enabled
    ensures EmitsSaving(start, priority, enabled, limit, ps, now, writeOk) == Emits(priority, ps)
  {
    if ps != [] {
      EmitsSavingQuiet(start, priority, enabled, limit, ps[..|ps| - 1], now, writeOk);
    }
  }

  /**
   * Over any number of saves no text is lost or duplicated: what was written
   * plus what is still buffered grows by exactly the lines of the messages.
   */
  lemma {:induction false} SaveAllConserves(b: Buffered, limit: int, msgs: seq<string>, now: int, writeOk: bool)
    ensures var r := SaveAll(b, true, limit, msgs, now, writeOk);
            Written(r.writes) + r.buffer == Written(b.writes) + b.buffer + LogLines(now, msgs)
  {
    if msgs != [] {
      var init := msgs[..|msgs| - 1];
      SaveAllConserves(b, limit, init, now, writeOk);
      var prev := SaveAll(b, true, limit, init, now, writeOk);
      var r := Save(prev, true, limit, msgs[|msgs| - 1], now, writeOk, now);
      SaveConserves(prev, limit, msgs[|msgs| - 1], now, writeOk, now);
      var line, earlier := LogLine(now, msgs[|msgs| - 1]), LogLines(now, init);
      var before := Written(b.writes) + b.buffer;
      assert Written(prev.writes) + prev.buffer == before + earlier;
      assert Written(r.writes) + r.buffer == before + earlier + line;
      assert LogLines(now, msgs) == earlier + line;
    }
  }

  /** The logger's static state. */
  class LogTree {
    var localLog: bool
    /** Whether an external cache directory is known (`externalCacheDir != null`). */
    var hasCacheDir: bool
    var writeLimit: int
    var buffer: string
    var lastWrite: int
    var writes: seq<FileWrite>
    var faults: nat
    /** Everything sent to the platform log, in order. */
    var sink: seq<Emission>
    /** The platform's API level. */
    const sdk: int

    function State(): Buffered
      reads this
    {
      Buffered(buffer, lastWrite, writes, faults)
    }

    /** Whether a non-ASSERT message reaches the buffer. */
    function Saving(priority: int): bool
      reads this
    {
      localLog && priority != ASSERT && hasCacheDir
    }

    /** The initial static state: local logging off, no cache directory, an empty buffer. */
    constructor(sdk: int)
      ensures this.sdk == sdk
      ensures !localLog && !hasCacheDir && writeLimit == LOG_WRITE_LIMIT
      ensures State() == Buffered("", 0, [], 0) && sink == []
    {
      this.sdk := sdk;
      localLog := false;
      hasCacheDir := false;
      writeLimit := LOG_WRITE_LIMIT;
      buffer := "";
      lastWrite := 0;
      writes := [];
      faults := 0;
      sink := [];
    }

    /**
     * `saveToLocal(msg)` at clock reading `now`; `writeOk` is whether the file
     * write succeeds and `doneAt` the clock reading after it.
     */
    method SaveToLocal(msg: string, now: int, writeOk: bool, doneAt: int)
      modifies this
      ensures State() == Save(old(State()), hasCacheDir, writeLimit, msg, now, writeOk, doneAt)
      ensures localLog == old(localLog) && hasCacheDir == old(hasCacheDir)
      ensures writeLimit == old(writeLimit)
      ensures sink == old(sink) + SaveReport(old(State()), hasCacheDir, writeLimit, msg, now, writeOk)
    {
      if !hasCacheDir {
        return;
      }
      var line := "[" + TimeLabel(now) + "] " + msg + "\n";
      buffer := buffer + line;
      if now - lastWrite < MIN_WRITE_INTERVAL && |buffer| <= writeLimit {
        return;
      }
      if writeOk {
        writes := writes + [FileWrite(HourOf(now), buffer)];
        buffer := "";
        lastWrite := doneAt;
      } else {
        sink := sink + [Error(TAG, SAVE_FAILED)];
        faults := faults + 1;
      }
    }

    /**
     * `log(priority, tag, message, t)`: the caller's tag is ignored.  A message
     * under 4000 characters is one platform call (a non-ASSERT one carries the
     * caller prefix); a longer one goes out as `PartsFrom(message, 0)`,
     * without prefix.  Only non-ASSERT text reaches the local buffer, and only
     * when local logging is on.  `stack` holds the class names of the call
     * stack; a stack too short for the prefix lookup ends the call with
     * `fault`.  Every local save happens at clock reading `now` with write
     * outcome `writeOk`.
     */
    method Log(priority: int, tag: string, message: string, stack: seq<string>, now: int, writeOk: bool)
      returns (fault: Option<StackFault>)
      modifies this
      ensures localLog == old(localLog) && hasCacheDir == old(hasCacheDir) && writeLimit == old(writeLimit)
      ensures |message| < MAX_LOG_LENGTH && priority == ASSERT ==>
                fault == None && sink == old(sink) + [Wtf(TAG, message)] && State() == old(State())
      ensures |message| < MAX_LOG_LENGTH && priority != ASSERT && GetPrefix(stack, sdk).Err? ==>
                fault == Some(GetPrefix(stack, sdk).error) && sink == old(sink) && State() == old(State())
      ensures |message| < MAX_LOG_LENGTH && priority != ASSERT && GetPrefix(stack, sdk).Ok? ==>
                fault == None &&
                sink == old(sink) + [Println(priority, TAG, GetPrefix(stack, sdk).value + " - " + message)] +
                        (if localLog then SaveReport(old(State()), hasCacheDir, writeLimit, message, now, writeOk) else []) &&
                State() == (if localLog then Save(old(State()), hasCacheDir, writeLimit, message, now, writeOk, now)
                            else old(State()))
      ensures |message| >= MAX_LOG_LENGTH ==>
                fault == None &&
                sink == old(sink) + EmitsSaving(old(State()), priority, Saving(priority), writeLimit, PartsFrom(message, 0), now, writeOk) &&
                State() == SaveAll(old(State()), Saving(priority), writeLimit, Texts(PartsFrom(message, 0)), now, writeOk)
    {
      fault := None;
      if |message| < MAX_LOG_LENGTH {
        if priority == ASSERT {
          sink := sink + [Wtf(TAG, message)];
        } else {
          var prefix := GetPrefix(stack, sdk);
          if prefix.Err? {
            fault := Some(prefix.error);
            return;
          }
          sink := sink + [Println(priority, TAG, prefix.value + " - " + message)];
          if localLog {
            SaveToLocal(message, now, writeOk, now);
          }
        }
        return;
      }
      LogLong(priority, message, now, writeOk);
    }

    /**
     * The long-message path of `log`: the message goes out line by line, each
     * line in pieces of at most 4000 characters, without prefix.
     */
    method LogLong(priority: int, message: string, now: int, writeOk: bool)
      modifies this
      ensures localLog == old(localLog) && hasCacheDir == old(hasCacheDir) && writeLimit == old(writeLimit)
      ensures sink == old(sink) + EmitsSaving(old(State()), priority, Saving(priority), writeLimit, PartsFrom(message, 0), now, writeOk)
      ensures State() == SaveAll(old(State()), Saving(priority), writeLimit, Texts(PartsFrom(message, 0)), now, writeOk)
    {
      ghost var all, done: seq<Part> := PartsFrom(message, 0), [];
      var i := 0;
      var length := |message|;
      assert done + PartsFrom(message, i) == all;
      while i < length
        invariant 0 <= i <= length + 1
        invariant done + PartsFrom(message, i) == all
        invariant Tracks(old(sink), old(State()), priority, now, writeOk, done)
        invariant localLog == old(localLog) && hasCacheDir == old(hasCacheDir) && writeLimit == old(writeLimit)
        decreases length + 1 - i
      {
        i, done := LogNextLine(priority, message, i, now, writeOk, old(sink), old(State()), all, done);
      }
      assert PartsFrom(message, i) == [];
      assert done + [] == done;
    }

    /** One turn of the outer loop: the line starting at `i0` goes out; returns the index after its newline. */
    method LogNextLine(priority: int, message: string, i0: nat, now: int, writeOk: bool,
                       ghost base: seq<Emission>, ghost start: Buffered, ghost all: seq<Part>, ghost done0: seq<Part>)
      returns (i: nat, ghost done: seq<Part>)
      requires i0 < |message|
      requires done0 + PartsFrom(message, i0) == all
      requires Tracks(base, start, priority, now, writeOk, done0)
      modifies this
      ensures i0 < i <= |message| + 1
      ensures done + PartsFrom(message, i) == all
      ensures Tracks(base, start, priority, now, writeOk, done)
      ensures localLog == old(localLog) && hasCacheDir == old(hasCacheDir) && writeLimit == old(writeLimit)
    {
      var newline := IndexOfFrom(message, '\n', i0);
      newline := if newline != -1 then newline else |message|;
      var stop;
      stop, done := LogLineChunks(priority, message, i0, newline, now, writeOk, base, start, done0);
      i := stop + 1;
      AppendAssoc(done0, LineChunks(message, i0, newline), PartsFrom(message, i));
    }

    /** What has been emitted and saved so far is exactly what the pieces `done` call for. */
    ghost predicate Tracks(base: seq<Emission>, start: Buffered, priority: int, now: int, writeOk: bool, done: seq<Part>)
      reads this
    {
      sink == base + EmitsSaving(start, priority, Saving(priority), writeLimit, done, now, writeOk) &&
      State() == SaveAll(start, Saving(priority), writeLimit, Texts(done), now, writeOk)
    }

    /** The do-while loop of `log` over one line `message[i0..newline)`; returns the index it stops at. */
    method LogLineChunks(priority: int, message: string, i0: nat, newline: nat, now: int, writeOk: bool,
                         ghost base: seq<Emission>, ghost start: Buffered, ghost done0: seq<Part>)
      returns (i: nat, ghost done: seq<Part>)
      requires i0 <= newline <= |message|
      requires Tracks(base, start, priority, now, writeOk, done0)
      modifies this
      ensures i == newline
      ensures done == done0 + LineChunks(message, i0, newline)
      ensures Tracks(base, start, priority, now, writeOk, done)
      ensures localLog == old(localLog) && hasCacheDir == old(hasCacheDir) && writeLimit == old(writeLimit)
    {
      i, done := i0, done0;
      var more := true;
      while more
        invariant i0 <= i <= newline
        invariant more ==> done + LineChunks(message, i, newline) == done0 + LineChunks(message, i0, newline)
        invariant !more ==> i == newline && done == done0 + LineChunks(message, i0, newline)
        invariant Tracks(base, start, priority, now, writeOk, done)
        invariant localLog == old(localLog) && hasCacheDir == old(hasCacheDir) && writeLimit == old(writeLimit)
        decreases newline - i, more
      {
        var end;
        ghost var p;
        end, p := EmitChunk(priority, message, i, newline, now, writeOk, base, start, done);
        if end < newline {
          AppendAssoc(done, [p], LineChunks(message, end, newline));
        }
        done := done + [p];
        i := end;
        more := i < newline;
      }
    }

    /** One turn of the do-while loop: the piece `message[i..end)` goes out; returns `end`. */
    method EmitChunk(priority: int, message: string, i: nat, newline: nat, now: int, writeOk: bool,
                     ghost base: seq<Emission>, ghost start: Buffered, ghost done: seq<Part>)
      returns (end: nat, ghost p: Part)
      requires i <= newline <= |message|
      requires Tracks(base, start, priority, now, writeOk, done)
      modifies this
      ensures end == if newline < i + MAX_LOG_LENGTH then newline else i + MAX_LOG_LENGTH
      ensures end < newline ==> LineChunks(message, i, newline) == [p] + LineChunks(message, end, newline)
      ensures end == newline ==> LineChunks(message, i, newline) == [p]
      ensures Tracks(base, start, priority, now, writeOk, done + [p])
      ensures localLog == old(localLog) && hasCacheDir == old(hasCacheDir) && writeLimit == old(writeLimit)
    {
      end := if newline < i + MAX_LOG_LENGTH then newline else i + MAX_LOG_LENGTH;
      var part := message[i..end];
      p := LineChunksHead(message, i, newline);
      ghost var emitted := sink;
      EmitPart(priority, part, now, writeOk);
      TracksSnoc(base, start, priority, Saving(priority), writeLimit, now, writeOk, done, p, emitted, sink, State());
    }

    /** One piece of a long message: its platform call and, for non-ASSERT text, its local save. */
    method EmitPart(priority: int, part: string, now: int, writeOk: bool)
      modifies this
      ensures sink == old(sink) + [Emit(priority, part)] + SaveReport(old(State()), Saving(priority), writeLimit, part, now, writeOk)
      ensures State() == Save(old(State()), Saving(priority), writeLimit, part, now, writeOk, now)
      ensures localLog == old(localLog) && hasCacheDir == old(hasCacheDir) && writeLimit == old(writeLimit)
    {
      if priority == ASSERT {
        sink := sink + [Wtf(TAG, part)];
      } else {
        sink := sink + [Println(priority, TAG, part)];
        if localLog {
          SaveToLocal(part, now, writeOk, now);
        }
      }
    }
  }

  /**
   * The first chunk of a line is the text up to the newline or the 4000-character
   * bound, whichever comes first; the rest of the chunks start right after it.
   */
  lemma LineChunksHead(m: string, i: nat, nl: nat) returns (p: Part)
    requires i <= nl <= |m|
    ensures p == LineChunks(m, i, nl)[0]
    ensures p.text == m[i..if nl < i + MAX_LOG_LENGTH then nl else i + MAX_LOG_LENGTH]
    ensures nl - i <= MAX_LOG_LENGTH ==> LineChunks(m, i, nl) == [p]
    ensures nl - i > MAX_LOG_LENGTH ==> LineChunks(m, i, nl) == [p] + LineChunks(m, i + MAX_LOG_LENGTH, nl)
  {
    p := LineChunks(m, i, nl)[0];
  }

  lemma AppendAssoc<T>(a: seq<T>, b: seq<T>, c: seq<T>)
    ensures a + (b + c) == (a + b) + c
  {
  }

  /** Sending one more piece and saving it extends what the earlier pieces called for by that piece. */
  lemma TracksSnoc(base: seq<Emission>, start: Buffered, priority: int, enabled: bool, limit: int, now: int, writeOk: bool,
                   done: seq<Part>, p: Part, sink0: seq<Emission>, sink1: seq<Emission>, state1: Buffered)
    requires sink0 == base + EmitsSaving(start, priority, enabled, limit, done, now, writeOk)
    requires sink1 == sink0 + [Emit(priority, p.text)] +
               SaveReport(SaveAll(start, enabled, limit, Texts(done), now, writeOk), enabled, limit, p.text, now, writeOk)
    requires state1 == Save(SaveAll(start, enabled, limit, Texts(done), now, writeOk), enabled, limit, p.text, now, writeOk, now)
    ensures sink1 == base + EmitsSaving(start, priority, enabled, limit, done + [p], now, writeOk)
    ensures state1 == SaveAll(start, enabled, limit, Texts(done + [p]), now, writeOk)
  {
    SnocFacts(priority, done, p, start, enabled, limit, now, writeOk);
    var a := EmitsSaving(start, priority, enabled, limit, done, now, writeOk);
    var e := [Emit(priority, p.text)];
    var r := SaveReport(SaveAll(start, enabled, limit, Texts(done), now, writeOk), enabled, limit, p.text, now, writeOk);
    AppendAssoc(base, a, e);
    AppendAssoc(base, a + e, r);
  }

  lemma SnocFacts(priority: int, done: seq<Part>, p: Part, start: Buffered, enabled: bool, limit: int, now: int, writeOk: bool)
    ensures Emits(priority, done + [p]) == Emits(priority, done) + [Emit(priority, p.text)]
    ensures Texts(done + [p]) == Texts(done) + [p.text]
    ensures EmitsSaving(start, priority, enabled, limit, done + [p], now, writeOk) ==
              EmitsSaving(start, priority, enabled, limit, done, now, writeOk) + [Emit(priority, p.text)] +
              SaveReport(SaveAll(start, enabled, limit, Texts(done), now, writeOk), enabled, limit, p.text, now, writeOk)
    ensures SaveAll(start, enabled, limit, Texts(done + [p]), now, writeOk)
            == Save(SaveAll(start, enabled, limit, Texts(done), now, writeOk), enabled, limit, p.text, now, writeOk, now)
  {
    assert (done + [p])[..|done|] == done;
    assert (Texts(done) + [p.text])[..|done|] == Texts(done);
  }
}
