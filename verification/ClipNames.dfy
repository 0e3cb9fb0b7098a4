/** Recording names: the grammar of viofosync_lib/_archive.py and the keys that
    web/services/naming.py and web/services/queue.py derive from a name. */
module ClipNames {
  import opened Basics

  predicate IsDigit(c: char) { '0' <= c <= '9' }

  predicate IsLetter(c: char) { 'A' <= c <= 'Z' || 'a' <= c <= 'z' }

  function Upper(c: char): char { if 'a' <= c <= 'z' then c - 'a' + 'A' else c }

  predicate AllDigits(s: string) { forall i :: 0 <= i < |s| ==> IsDigit(s[i]) }

  predicate AllLetters(s: string) { forall i :: 0 <= i < |s| ==> IsLetter(s[i]) }

  predicate IsExtension(s: string) {
    |s| == 4 && s[0] == '.' && Upper(s[1]) == 'M' && Upper(s[2]) == 'P' && s[3] == '4'
  }

  // ---- The grammar ----

  /** A recording name taken apart: its stamp YYYYMMDDHHMMSS, which of the two optional
      separators it has, its sequence digits and its suffix letters. */
  datatype Name = Name(stamp: string, afterYear: bool, afterDay: bool,
                       sequence: string, letters: string, extension: string)
  {
    predicate WellFormed() {
      && |stamp| == 14 && AllDigits(stamp) && AllDigits(sequence) && AllLetters(letters)
      && sequence + letters != "" && IsExtension(extension)
    }

    function Tail(): string { sequence + (letters + extension) }

    function FromTime(): string
      requires |stamp| == 14
    {
      OptionalSeparator(afterDay, stamp[8..] + ("_" + Tail()))
    }

    function Render(): string
      requires |stamp| == 14
    {
      stamp[..4] + OptionalSeparator(afterYear, stamp[4..8] + FromTime())
    }

    predicate SameLayout(n: Name) { afterYear == n.afterYear && afterDay == n.afterDay }

    /** No separator in the stamp: a single-channel name. */
    predicate Compact() { !afterYear && !afterDay }
  }

  function OptionalSeparator(present: bool, s: string): string { if present then "_" + s else s }

  function CountDigits(s: string): (n: nat)
    ensures n <= |s| && AllDigits(s[..n]) && (n < |s| ==> !IsDigit(s[n]))
  {
    if s == "" || !IsDigit(s[0]) then 0
    else
      var n := CountDigits(s[1..]);
      assert s[..n + 1] == [s[0]] + s[1..][..n];
      n + 1
  }

  /** The digits, letters and extension after the last separator. */
  function ParseTail(stamp: string, afterYear: bool, afterDay: bool, s: string): Option<Name> {
    var n := CountDigits(s);
    if |s| < n + 4 then None
    else
      var letters, ext := s[n..|s| - 4], s[|s| - 4..];
      if AllLetters(letters) && IsExtension(ext) && n + |letters| > 0
      then Some(Name(stamp, afterYear, afterDay, s[..n], letters, ext)) else None
  }

  function ParseTime(date: string, afterYear: bool, s: string): Option<Name> {
    var afterDay := s != "" && s[0] == '_';
    var rest := if afterDay then s[1..] else s;
    if |rest| < 7 || !AllDigits(rest[..6]) || rest[6] != '_' then None
    else ParseTail(date + rest[..6], afterYear, afterDay, rest[7..])
  }

  function Parse(s: string): Option<Name> {
    if |s| < 5 || !AllDigits(s[..4]) then None
    else
      var afterYear := s[4] == '_';
      var rest := if afterYear then s[5..] else s[4..];
      if |rest| < 4 || !AllDigits(rest[..4]) then None
      else ParseTime(s[..4] + rest[..4], afterYear, rest[4..])
  }

  lemma {:induction false} CountOf(digits: string, rest: string)
    requires AllDigits(digits) && (rest != "" ==> !IsDigit(rest[0]))
    ensures CountDigits(digits + rest) == |digits|
  {
    if digits != "" {
      assert (digits + rest)[1..] == digits[1..] + rest;
      CountOf(digits[1..], rest);
    } else {
      assert digits + rest == rest;
    }
  }

  lemma TailParts(a: string, b: string, c: string)
    ensures var s := a + (b + c);
            s[..|a|] == a && s[|a|..|s| - |c|] == b && s[|s| - |c|..] == c && |b| == |s| - |a| - |c|
  {
    Parts(a, b + c);
    Parts(b, c);
    var s := a + (b + c);
    assert s[|a|..|s| - |c|] == s[|a|..][..|b|];
    assert s[|s| - |c|..] == s[|a|..][|b|..];
  }

  lemma TailRoundTrip(n: Name)
    requires n.WellFormed()
    ensures ParseTail(n.stamp, n.afterYear, n.afterDay, n.Tail()) == Some(n)
  {
    var rest := n.letters + n.extension;
    if n.letters != "" { assert rest[0] == n.letters[0]; } else { assert rest[0] == '.'; }
    CountOf(n.sequence, rest);
    TailParts(n.sequence, n.letters, n.extension);
  }

  lemma Parts(a: string, b: string)
    ensures (a + b)[..|a|] == a && (a + b)[|a|..] == b
  {
  }

  lemma TimeRoundTrip(n: Name)
    requires n.WellFormed()
    ensures ParseTime(n.stamp[..8], n.afterYear, n.FromTime()) == Some(n)
  {
    hide ParseTail, Name.Tail, AllLetters, IsExtension;
    TailRoundTrip(n);
    var rest := n.stamp[8..] + ("_" + n.Tail());
    Parts(n.stamp[8..], "_" + n.Tail());
    Parts("_", n.Tail());
    Parts("_", rest);
    assert rest[0] == n.stamp[8] && rest[6] == '_';
    assert rest[7..] == rest[6..][1..];
    assert n.stamp[..8] + n.stamp[8..] == n.stamp;
  }

  lemma DateParses(year: string, afterYear: bool, day: string, time: string)
    requires |year| == |day| == 4 && AllDigits(year) && AllDigits(day)
    ensures Parse(year + OptionalSeparator(afterYear, day + time)) == ParseTime(year + day, afterYear, time)
  {
    hide ParseTime;
    Parts(year, OptionalSeparator(afterYear, day + time));
    Parts("_", day + time);
    Parts(day, time);
    assert (day + time)[0] == day[0];
  }

  /** Every well-formed name is accepted, and taken apart as it was put together. */
  lemma RenderParses(n: Name)
    requires n.WellFormed()
    ensures Parse(n.Render()) == Some(n)
  {
    hide Parse, ParseTime, Name.FromTime, AllLetters, IsExtension, OptionalSeparator;
    TimeRoundTrip(n);
    DateParses(n.stamp[..4], n.afterYear, n.stamp[4..8], n.FromTime());
    assert n.stamp[..4] + n.stamp[4..8] == n.stamp[..8];
  }

  lemma TailIsRendered(stamp: string, afterYear: bool, afterDay: bool, s: string)
    requires ParseTail(stamp, afterYear, afterDay, s).Some? && |stamp| == 14 && AllDigits(stamp)
    ensures var n := ParseTail(stamp, afterYear, afterDay, s).value;
            && n.WellFormed() && n.stamp == stamp && n.afterYear == afterYear && n.afterDay == afterDay
            && s == n.Tail()
  {
  }

  lemma TimeIsRendered(date: string, afterYear: bool, s: string)
    requires ParseTime(date, afterYear, s).Some? && |date| == 8 && AllDigits(date)
    ensures var n := ParseTime(date, afterYear, s).value;
            n.WellFormed() && n.stamp[..8] == date && n.afterYear == afterYear && s == n.FromTime()
  {
    hide ParseTail, Name.Tail, AllLetters, IsExtension;
    var afterDay := s != "" && s[0] == '_';
    var rest := if afterDay then s[1..] else s;
    TailIsRendered(date + rest[..6], afterYear, afterDay, rest[7..]);
    Parts(date, rest[..6]);
    assert rest == rest[..6] + ("_" + rest[7..]);
  }

  /** Nothing else is accepted: an accepted name is the rendering of its parts. */
  lemma ParseIsRendered(s: string)
    requires Parse(s).Some?
    ensures Parse(s).value.WellFormed() && s == Parse(s).value.Render()
  {
    hide ParseTime, Name.FromTime, AllLetters, IsExtension;
    var afterYear := s[4] == '_';
    var rest := if afterYear then s[5..] else s[4..];
    var date := s[..4] + rest[..4];
    TimeIsRendered(date, afterYear, rest[4..]);
    var n := Parse(s).value;
    Parts(s[..4], rest[..4]);
    assert n.stamp[..4] == date[..4] && n.stamp[4..8] == date[4..8];
    assert rest == rest[..4] + rest[4..];
    assert s == s[..4] + OptionalSeparator(afterYear, rest);
  }

  // ---- Keys ----

  function Take(s: string, n: nat): string { if |s| <= n then s else s[..n] }

  /** SQL replace(s, '_', ''). */
  function Strip(s: string): string {
    if s == "" then "" else (if s[0] == '_' then "" else [s[0]]) + Strip(s[1..])
  }

  /** The 14-digit capture key: the separators taken out of the first sixteen characters. */
  function CaptureKey(s: string): string { Take(Strip(Take(s, 16)), 14) }

  function Prefix16(s: string): string { Take(s, 16) }

  /** SQL substr, counting from 1. */
  function Substr(s: string, from: nat, n: nat): string
    requires from > 0
  {
    if from > |s| then "" else Take(s[from - 1..], n)
  }

  function DayKey(s: string): string {
    var k := CaptureKey(s);
    Substr(k, 1, 4) + "-" + Substr(k, 5, 2) + "-" + Substr(k, 7, 2)
  }

  lemma {:induction false} StripDigits(a: string, b: string)
    requires AllDigits(a)
    ensures Strip(a + b) == a + Strip(b)
  {
    if a == "" {
      assert a + b == b;
    } else {
      StripDigits(a[1..], b);
      assert (a + b)[1..] == a[1..] + b;
    }
  }

  lemma TakeAfter(a: string, b: string, k: nat)
    requires |a| <= k
    ensures Take(a + b, k) == a + Take(b, k - |a|)
  {
  }

  lemma StripSeparator(present: bool, s: string, k: nat)
    requires k > 0
    ensures Strip(Take(OptionalSeparator(present, s), k)) == Strip(Take(s, if present then k - 1 else k))
  {
    if present {
      TakeAfter("_", s, k);
      Parts("_", Take(s, k - 1));
    }
  }

  /** Stripping what a digit part and the rest leave within a length keeps the digits first. */
  lemma DigitsLead(a: string, b: string, k: nat)
    requires AllDigits(a) && |a| <= k
    ensures Strip(Take(a + b, k)) == a + Strip(Take(b, k - |a|))
  {
    TakeAfter(a, b, k);
    StripDigits(a, Take(b, k - |a|));
  }

  /** In every layout the capture key is the parsed date and time. */
  lemma KeyIsStamp(s: string)
    requires Parse(s).Some?
    ensures CaptureKey(s) == Parse(s).value.stamp
  {
    hide Parse, Strip, Take, Name.Tail, AllLetters, IsExtension, OptionalSeparator;
    ParseIsRendered(s);
    var n := Parse(s).value;
    var date, day, clock := n.stamp[..4], n.stamp[4..8], n.stamp[8..];
    DigitsLead(date, OptionalSeparator(n.afterYear, day + n.FromTime()), 16);
    StripSeparator(n.afterYear, day + n.FromTime(), 12);
    var k := if n.afterYear then 11 else 12;
    DigitsLead(day, n.FromTime(), k);
    StripSeparator(n.afterDay, clock + ("_" + n.Tail()), k - 4);
    DigitsLead(clock, "_" + n.Tail(), if n.afterDay then k - 5 else k - 4);
    var more := Strip(Take("_" + n.Tail(), if n.afterDay then k - 11 else k - 10));
    Reassembled(n.stamp, more);
  }

  lemma Reassembled(stamp: string, more: string)
    requires |stamp| == 14
    ensures Take(stamp[..4] + (stamp[4..8] + (stamp[8..] + more)), 14) == stamp
  {
    assert stamp[..4] + (stamp[4..8] + (stamp[8..] + more)) == stamp + more;
  }

  /** The day key is the parsed date, whatever the layout. */
  lemma DayKeyIsDate(s: string)
    requires Parse(s).Some?
    ensures var stamp := Parse(s).value.stamp;
            |stamp| == 14 && DayKey(s) == stamp[..4] + "-" + stamp[4..6] + "-" + stamp[6..8]
  {
    hide Parse, CaptureKey;
    KeyIsStamp(s);
    ParseIsRendered(s);
    var stamp := Parse(s).value.stamp;
    assert stamp[4..][..2] == stamp[4..6] && stamp[6..][..2] == stamp[6..8];
  }

  // ---- The order of keys ----

  /** The byte order of strings, as the database compares them. */
  predicate Below(a: string, b: string) {
    b != "" && (a == "" || a[0] < b[0] || (a[0] == b[0] && Below(a[1..], b[1..])))
  }

  function Value(digits: string): nat
    requires AllDigits(digits)
  {
    if digits == "" then 0
    else 10 * Value(digits[..|digits| - 1]) + (digits[|digits| - 1] - '0') as nat
  }

  function Pow10(n: nat): nat { if n == 0 then 1 else 10 * Pow10(n - 1) }

  lemma {:induction false} ValueOfFirst(s: string)
    requires AllDigits(s) && s != ""
    ensures Value(s) == (s[0] - '0') as nat * Pow10(|s| - 1) + Value(s[1..]) && Value(s[1..]) < Pow10(|s| - 1)
    decreases |s|
  {
    if |s| == 1 {
      assert s[1..] == "" && s[..0] == "";
    } else {
      var init := s[..|s| - 1];
      ValueOfFirst(init);
      assert s[1..][..|s| - 2] == init[1..];
      assert s[1..] == init[1..] + [s[|s| - 1]];
      Times10((s[0] - '0') as nat, Pow10(|s| - 2));
    }
  }

  lemma Times10(a: nat, p: nat)
    ensures 10 * (a * p) == a * (10 * p)
  {
  }

  lemma DigitDecides(x: nat, y: nat, p: nat, u: nat, v: nat)
    requires u < p && v < p
    ensures x * p + u < y * p + v <==> x < y || (x == y && u < v)
  {
    if x < y {
      assert (x + 1) * p <= y * p;
    } else if y < x {
      assert (y + 1) * p <= x * p;
    }
  }

  /** For keys of one length the byte order is the order of the numbers they write. */
  lemma {:induction false} BelowIsEarlier(a: string, b: string)
    requires AllDigits(a) && AllDigits(b) && |a| == |b|
    ensures Below(a, b) <==> Value(a) < Value(b)
    decreases |a|
  {
    if a != "" {
      ValueOfFirst(a);
      ValueOfFirst(b);
      BelowIsEarlier(a[1..], b[1..]);
      DigitDecides((a[0] - '0') as nat, (b[0] - '0') as nat, Pow10(|a| - 1), Value(a[1..]), Value(b[1..]));
    }
  }

  /** SQL MAX: no key of the names is above this one. */
  ghost predicate IsMax(names: set<string>, key: string) {
    forall f :: f in names ==> !Below(key, CaptureKey(f))
  }

  /** Main result: the greatest key is the latest capture, whatever layouts are mixed. */
  lemma MaxIsLatest(names: set<string>, f: string, g: string)
    requires Parse(f).Some? && Parse(g).Some? && g in names && IsMax(names, CaptureKey(f))
    ensures AllDigits(Parse(f).value.stamp) && AllDigits(Parse(g).value.stamp)
    ensures Value(Parse(g).value.stamp) <= Value(Parse(f).value.stamp)
  {
    ParseIsRendered(f);
    ParseIsRendered(g);
    KeyIsStamp(f);
    KeyIsStamp(g);
    BelowIsEarlier(CaptureKey(f), CaptureKey(g));
  }

  // ---- Siblings ----

  /** The range test of the sibling query. */
  predicate InRange(f: string, p: string) { !Below(f, p) && Below(f, p + "~") }

  predicate Plain(s: string) { forall i :: 0 <= i < |s| ==> s[i] < '~' }

  /** On plain names the range test is a prefix test. */
  lemma {:induction false} RangeIsPrefix(f: string, p: string)
    requires Plain(f)
    ensures InRange(f, p) <==> p <= f
    decreases |f|
  {
    var q := p + "~";
    if p == "" {
      assert q == "~";
    } else if f != "" {
      assert q[0] == p[0] && q[1..] == p[1..] + "~";
      if f[0] == p[0] {
        RangeIsPrefix(f[1..], p[1..]);
        assert p <= f <==> p[1..] <= f[1..] by {
          if p <= f { assert p[1..] == f[1..|p|]; }
          if p[1..] <= f[1..] { assert p == [p[0]] + p[1..] && f == [f[0]] + f[1..]; }
        }
      } else if f[0] < p[0] {
        assert Below(f, p);
      } else {
        assert !Below(f, q);
      }
    }
  }

  lemma PlainParts(a: string, b: string)
    requires Plain(a) && Plain(b)
    ensures Plain(a + b)
  {
  }

  lemma NamesArePlain(s: string)
    requires Parse(s).Some?
    ensures Plain(s) && |s| >= 16
  {
    hide Parse;
    ParseIsRendered(s);
    var n := Parse(s).value;
    var sep := "_";
    PlainParts(n.letters, n.extension);
    PlainParts(n.sequence, n.letters + n.extension);
    PlainParts(sep, n.Tail());
    PlainParts(n.stamp[8..], sep + n.Tail());
    PlainParts(sep, n.stamp[8..] + (sep + n.Tail()));
    PlainParts(n.stamp[4..8], n.FromTime());
    PlainParts(sep, n.stamp[4..8] + n.FromTime());
    PlainParts(n.stamp[..4], OptionalSeparator(n.afterYear, n.stamp[4..8] + n.FromTime()));
  }

  /** Cutting to one length keeps two texts apart exactly when their first parts or the cut
      rests differ. */
  lemma SameTake(a: string, b: string, c: string, d: string, k: nat)
    requires |a| == |c| <= k
    ensures Take(a + b, k) == Take(c + d, k) <==> a == c && Take(b, k - |a|) == Take(d, k - |a|)
  {
    TakeAfter(a, b, k);
    TakeAfter(c, d, k);
    Parts(a, Take(b, k - |a|));
    Parts(c, Take(d, k - |a|));
  }

  lemma SameAfterSeparator(present: bool, s: string, t: string, k: nat)
    requires k > 0
    ensures var k' := if present then k - 1 else k;
            Take(OptionalSeparator(present, s), k) == Take(OptionalSeparator(present, t), k)
            <==> Take(s, k') == Take(t, k')
  {
    if present { SameTake("_", s, "_", t, k); }
  }

  lemma FirstOfTail(n: Name)
    requires n.WellFormed()
    ensures Take(n.Tail(), 1) == (n.sequence + n.letters)[..1]
  {
    var s := n.sequence + n.letters;
    assert n.Tail() == s + n.extension;
    assert n.Tail()[0] == s[0];
  }

  lemma SamePrefix(a: Name, b: Name)
    requires a.WellFormed() && b.WellFormed() && a.SameLayout(b)
    ensures Prefix16(a.Render()) == Prefix16(b.Render())
            <==> a.stamp == b.stamp
                 && (a.Compact() ==> (a.sequence + a.letters)[..1] == (b.sequence + b.letters)[..1])
  {
    hide AllDigits, AllLetters, IsExtension, Take, Name.Tail, OptionalSeparator;
    SameTake(a.stamp[..4], OptionalSeparator(a.afterYear, a.stamp[4..8] + a.FromTime()),
             b.stamp[..4], OptionalSeparator(b.afterYear, b.stamp[4..8] + b.FromTime()), 16);
    SameAfterSeparator(a.afterYear, a.stamp[4..8] + a.FromTime(), b.stamp[4..8] + b.FromTime(), 12);
    var k := if a.afterYear then 11 else 12;
    SameTake(a.stamp[4..8], a.FromTime(), b.stamp[4..8], b.FromTime(), k);
    SameAfterSeparator(a.afterDay, a.stamp[8..] + ("_" + a.Tail()), b.stamp[8..] + ("_" + b.Tail()), k - 4);
    var m := if a.afterDay then k - 5 else k - 4;
    SameTake(a.stamp[8..], "_" + a.Tail(), b.stamp[8..], "_" + b.Tail(), m);
    SameAfterStamp(a, b, m - 6);
    SameStamp(a.stamp, b.stamp);
  }

  lemma SameStamp(s: string, t: string)
    requires |s| == |t| == 14
    ensures s == t <==> s[..4] == t[..4] && s[4..8] == t[4..8] && s[8..] == t[8..]
  {
    assert s == s[..4] + s[4..8] + s[8..];
    assert t == t[..4] + t[4..8] + t[8..];
  }

  lemma SameAfterStamp(a: Name, b: Name, k: nat)
    requires a.WellFormed() && b.WellFormed() && k <= 2
    ensures Take("_" + a.Tail(), k) == Take("_" + b.Tail(), k)
            <==> (k == 2 ==> (a.sequence + a.letters)[..1] == (b.sequence + b.letters)[..1])
  {
    FirstOfTail(a);
    FirstOfTail(b);
    if k > 0 { SameTake("_", a.Tail(), "_", b.Tail(), k); }
  }

  /** The character of the prefix that tells the layouts apart. */
  lemma LayoutShows(n: Name)
    requires n.WellFormed()
    ensures var p := Prefix16(n.Render());
            && |p| == 16 && (p[4] == '_' <==> n.afterYear)
            && (p[if n.afterYear then 9 else 8] == '_' <==> n.afterDay)
  {
    hide AllLetters, IsExtension, Name.Tail;
    var clock := n.stamp[8..] + ("_" + n.Tail());
    var time := n.FromTime();
    var day := n.stamp[4..8] + time;
    var rest := OptionalSeparator(n.afterYear, day);
    Parts(n.stamp[..4], rest);
    Parts(n.stamp[4..8], time);
    assert clock[0] == n.stamp[8];
    assert time[0] == if n.afterDay then '_' else n.stamp[8];
    assert day[0] == n.stamp[4] && day[4] == time[0];
    assert rest[0] == if n.afterYear then '_' else day[0];
    assert rest[if n.afterYear then 5 else 4] == day[4];
    LongEnough(n);
  }

  lemma LongEnough(n: Name)
    requires n.WellFormed()
    ensures |n.Render()| >= 16
  {
  }

  /** Two names pass for siblings exactly when they have one layout and are of one capture; two
      compact names need the same first character after the stamp as well. */
  lemma SiblingIffSameCapture(f: string, g: string)
    requires Parse(f).Some? && Parse(g).Some?
    ensures var a, b := Parse(f).value, Parse(g).value;
            InRange(f, Prefix16(g)) <==>
              a.SameLayout(b) && CaptureKey(f) == CaptureKey(g)
              && (a.Compact() ==> (a.sequence + a.letters)[..1] == (b.sequence + b.letters)[..1])
  {
    hide Parse, CaptureKey, InRange, Name.Render, Plain;
    ParseIsRendered(f);
    ParseIsRendered(g);
    NamesArePlain(f);
    NamesArePlain(g);
    RangeIsPrefix(f, Prefix16(g));
    KeyIsStamp(f);
    KeyIsStamp(g);
    var a, b := Parse(f).value, Parse(g).value;
    if a.SameLayout(b) {
      SamePrefix(a, b);
    } else {
      LayoutShows(a);
      LayoutShows(b);
    }
  }

  // ---- Letters ----

  function FromEnd(s: string, k: nat): char
    requires 0 < k <= |s|
  {
    Upper(s[|s| - k])
  }

  const CAMERA_LETTERS := "FRTI"

  /** The suffix letters as the queue reads them, when the registry knows their shape. */
  function SuffixLetters(s: string): Option<string> {
    match Parse(s)
    case None => None
    case Some(n) =>
      var m := |n.letters|;
      if m == 0 then Some("")
      else if Upper(n.letters[m - 1]) !in CAMERA_LETTERS || m > 2 then None
      else if m == 2 && Upper(n.letters[0]) !in "PE" then None
      else Some(if m == 1 then [Upper(n.letters[0])] else [Upper(n.letters[0]), Upper(n.letters[1])])
  }

  /** The event a name tells: 'P', 'E', or '-' for a normal clip. */
  function EventOf(letters: string): char {
    if |letters| == 2 && letters[0] in "PE" then letters[0] else '-'
  }

  function CameraOf(letters: string): char {
    if letters == "" then 'F' else letters[|letters| - 1]
  }

  predicate IsGpsLens(s: string) {
    |s| >= 5 && (FromEnd(s, 5) == 'F' || IsDigit(s[|s| - 5]))
  }

  function EventByte(s: string): char {
    if |s| >= 6 && (FromEnd(s, 6) == 'P' || FromEnd(s, 6) == 'E') then FromEnd(s, 6) else '-'
  }

  function CameraByte(s: string): char
    requires |s| >= 5
  {
    if IsDigit(s[|s| - 5]) then 'F' else FromEnd(s, 5)
  }

  ghost predicate EndsWith(s: string, t: string) { |t| <= |s| && s[|s| - |t|..] == t }

  lemma EndsWithMore(a: string, b: string, t: string)
    requires EndsWith(b, t)
    ensures EndsWith(a + b, t)
  {
    assert (a + b)[|a + b| - |t|..] == b[|b| - |t|..];
  }

  lemma RenderEnds(n: Name)
    requires n.WellFormed()
    ensures EndsWith(n.Render(), "_" + n.Tail())
  {
    hide EndsWith, AllDigits, AllLetters, IsExtension, Name.Tail;
    var t := "_" + n.Tail();
    EndsWithSelf(t);
    EndsWithMore(n.stamp[8..], t, t);
    EndsWithMore("_", n.stamp[8..] + t, t);
    EndsWithMore(n.stamp[4..8], n.FromTime(), t);
    EndsWithMore("_", n.stamp[4..8] + n.FromTime(), t);
    EndsWithMore(n.stamp[..4], OptionalSeparator(n.afterYear, n.stamp[4..8] + n.FromTime()), t);
  }

  lemma EndsWithSelf(t: string)
    ensures EndsWith(t, t)
  {
  }

  /** The two characters before a four-character extension. */
  lemma BeforeExtension(a: string, b: string, c: string)
    requires |c| == 4 && |a + b| > 0
    ensures var t, m := "_" + (a + (b + c)), |b|;
            && |t| >= 6
            && t[|t| - 5] == (if m > 0 then b[m - 1] else a[|a| - 1])
            && t[|t| - 6] == (if m > 1 then b[m - 2] else if m + |a| > 1 then a[|a| - 2 + m] else '_')
  {
  }

  lemma EndOfName(n: Name)
    requires n.WellFormed()
    ensures var s, m := n.Render(), |n.letters|;
            && |s| >= 6
            && s[|s| - 5] == (if m > 0 then n.letters[m - 1] else n.sequence[|n.sequence| - 1])
            && s[|s| - 6] == (if m > 1 then n.letters[m - 2]
                              else if m + |n.sequence| > 1 then n.sequence[|n.sequence| - 2 + m] else '_')
  {
    hide AllDigits, AllLetters, Name.Render;
    RenderEnds(n);
    BeforeExtension(n.sequence, n.letters, n.extension);
    var s, t := n.Render(), "_" + n.Tail();
    assert s[|s| - |t|..][|t| - 5] == s[|s| - 5];
    assert s[|s| - |t|..][|t| - 6] == s[|s| - 6];
  }

  /** The three bytewise tests of the database agree with the parsed name whenever the registry
      knows its letters. */
  lemma BytesTellTheLens(s: string)
    requires SuffixLetters(s).Some?
    ensures |s| >= 6
    ensures var letters := SuffixLetters(s).value;
            && EventByte(s) == EventOf(letters) && CameraByte(s) == CameraOf(letters)
            && (IsGpsLens(s) <==> CameraOf(letters) == 'F')
  {
    hide Parse, Name.Render;
    ParseIsRendered(s);
    EndOfName(Parse(s).value);
  }

  /** The lens and the event a well-formed name tells: the last letter F, or no letter, is the GPS lens; the
      letter before the last tells parking or an event. */
  lemma LettersTell(n: Name)
    requires n.WellFormed()
    ensures var s, m := n.Render(), |n.letters|;
            && (IsGpsLens(s) <==> m == 0 || n.letters[m - 1] == 'F' || n.letters[m - 1] == 'f')
            && (EventByte(s) == 'P' <==> m >= 2 && (n.letters[m - 2] == 'P' || n.letters[m - 2] == 'p'))
            && (EventByte(s) == 'E' <==> m >= 2 && (n.letters[m - 2] == 'E' || n.letters[m - 2] == 'e'))
            && (EventByte(s) != 'P' && EventByte(s) != 'E' ==> EventByte(s) == '-')
  {
    hide Name.Render;
    EndOfName(n);
  }

  /** Which suffixes the registry knows: none, a camera letter, or a camera letter after P or E. */
  lemma KnownSuffixes(n: Name)
    requires n.WellFormed()
    ensures var m := |n.letters|;
            SuffixLetters(n.Render()).Some?
            <==> m == 0 || (m <= 2 && Upper(n.letters[m - 1]) in {'F', 'R', 'T', 'I'}
                            && (m == 2 ==> Upper(n.letters[0]) in {'P', 'E'}))
    ensures SuffixLetters(n.Render()).Some? ==>
              var letters := SuffixLetters(n.Render()).value;
              && |letters| == |n.letters| && forall i :: 0 <= i < |letters| ==> letters[i] == Upper(n.letters[i])
  {
    hide Parse, Name.Render;
    RenderParses(n);
  }
}
