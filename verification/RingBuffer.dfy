// The picture ring buffer of the file output plugin: naming, clean-up, and the loop around them.
module RingBuffer {
  import opened Bits
  import opened Ascii
  import opened Division

  // ----- names

  /** Local time to the second, and the number of the picture since the program started. */
  datatype Picture = Picture(year: nat, month: nat, day: nat, hour: nat, minute: nat, second: nat, counter: nat)

  /** At least w digits. */
  function Printed(n: nat, w: nat): seq<Byte> {
    Fill(w - |Digits(n)|) + Digits(n)
  }

  /** The file name: "%Y_%m_%d_%H_%M_%S_picture_%09llu.jpg". */
  function Name(p: Picture): seq<Byte> {
    Printed(p.year, 1) + Text("_") + FromMonth(p)
  }

  function FromMonth(p: Picture): seq<Byte> {
    Printed(p.month, 2) + Text("_") + FromDay(p)
  }

  function FromDay(p: Picture): seq<Byte> {
    Printed(p.day, 2) + Text("_") + FromHour(p)
  }

  function FromHour(p: Picture): seq<Byte> {
    Printed(p.hour, 2) + Text("_") + FromMinute(p)
  }

  function FromMinute(p: Picture): seq<Byte> {
    Printed(p.minute, 2) + Text("_") + FromSecond(p)
  }

  function FromSecond(p: Picture): seq<Byte> {
    Printed(p.second, 2) + Text("_picture_") + FromCounter(p)
  }

  function FromCounter(p: Picture): seq<Byte> {
    Printed(p.counter, 9) + Text(".jpg")
  }

  /** strcmp says a comes before b. */
  predicate Before(a: seq<Byte>, b: seq<Byte>)
    decreases |a|
  {
    b != [] && (a == [] || a[0] < b[0] || (a[0] == b[0] && Before(a[1..], b[1..])))
  }

  // ----- numbers of fixed width

  function Pow10(n: nat): (r: nat)
    ensures r > 0
  {
    if n == 0 then 1 else 10 * Pow10(n - 1)
  }

  function Fixed(n: nat, w: nat): (d: seq<Byte>)
    ensures |d| == w
    decreases w
  {
    if w == 0 then [] else Fixed(n / 10, w - 1) + [(48 + n % 10) as Byte]
  }

  /** Numbers of the same width compare like their digits, and if they are equal what follows decides. */
  lemma {:induction false} FixedOrder(a: nat, b: nat, w: nat, s: seq<Byte>, t: seq<Byte>)
    requires a < Pow10(w) && b < Pow10(w)
    ensures Before(Fixed(a, w) + s, Fixed(b, w) + t) <==> a < b || (a == b && Before(s, t))
    decreases w
  {
    if w == 0 {
      assert [] + s == s && [] + t == t;
    } else {
      var c, d: Byte := (48 + a % 10) as Byte, (48 + b % 10) as Byte;
      FixedOrder(a / 10, b / 10, w - 1, [c] + s, [d] + t);
      assert Fixed(a, w) + s == Fixed(a / 10, w - 1) + ([c] + s);
      assert Fixed(b, w) + t == Fixed(b / 10, w - 1) + ([d] + t);
      assert ([c] + s)[1..] == s && ([d] + t)[1..] == t;
    }
  }

  lemma {:induction false} DigitsFixed(n: nat, w: nat)
    requires w > 0 && Pow10(w - 1) <= n < Pow10(w)
    ensures Digits(n) == Fixed(n, w)
  {
    if w == 1 {
      assert Fixed(n / 10, 0) == [];
    } else {
      DigitsFixed(n / 10, w - 1);
    }
  }

  lemma {:induction false} FixedZero(w: nat)
    ensures Fixed(0, w) == Fill(w)
  {
    if w > 0 { FixedZero(w - 1); }
  }

  lemma {:induction false} FilledFixed(n: nat, w: nat)
    requires w > 0 && n < Pow10(w)
    ensures |Digits(n)| <= w && Printed(n, w) == Fixed(n, w)
    decreases w
  {
    var last := [(48 + n % 10) as Byte];
    if n < 10 {
      FixedZero(w - 1);
      assert Digits(n) == [] + last;
      assert Fill(w - 1) + last == Fixed(0, w - 1) + last;
    } else {
      FilledFixed(n / 10, w - 1);
      var d := Digits(n / 10);
      assert Digits(n) == d + last;
      assert Fill(w - 1 - |d|) + (d + last) == Fill(w - 1 - |d|) + d + last;
    }
  }

  // ----- name order is age order

  /** Four digits for the year, two for the fields of date and time, nine for the counter. */
  predicate Representable(p: Picture) {
    && Dated(p) && p.counter < 1000000000
  }

  predicate Dated(p: Picture) {
    && 1000 <= p.year < 10000 && p.month < 100 && p.day < 100 && p.hour < 100 && p.minute < 100 && p.second < 100
  }

  /** By time, and by counter within one second. */
  predicate Older(p: Picture, q: Picture) {
    p.year < q.year || (p.year == q.year
    && (p.month < q.month || (p.month == q.month
    && (p.day < q.day || (p.day == q.day
    && (p.hour < q.hour || (p.hour == q.hour
    && (p.minute < q.minute || (p.minute == q.minute
    && (p.second < q.second || (p.second == q.second
    && p.counter < q.counter)))))))))))
  }

  lemma {:induction false} SameFront(f: seq<Byte>, s: seq<Byte>, t: seq<Byte>)
    ensures Before(f + s, f + t) <==> Before(s, t)
  {
    if f == [] {
      assert f + s == s && f + t == t;
    } else {
      assert (f + s)[1..] == f[1..] + s && (f + t)[1..] == f[1..] + t;
      SameFront(f[1..], s, t);
    }
  }

  /** One field of the name and the text behind it. */
  lemma Field(a: nat, b: nat, w: nat, sep: seq<Byte>, s: seq<Byte>, t: seq<Byte>)
    requires w > 0 && a < Pow10(w) && b < Pow10(w)
    ensures Before(Printed(a, w) + sep + s, Printed(b, w) + sep + t) <==> a < b || (a == b && Before(s, t))
  {
    hide Fixed, Printed, Before;
    FilledFixed(a, w);
    FilledFixed(b, w);
    FixedOrder(a, b, w, sep + s, sep + t);
    SameFront(sep, s, t);
    assert Fixed(a, w) + sep + s == Fixed(a, w) + (sep + s);
    assert Fixed(b, w) + sep + t == Fixed(b, w) + (sep + t);
  }

  /** A four-digit year prints as it would with zeros filled in. */
  lemma YearPrinted(y: nat)
    requires 1000 <= y < 10000
    ensures Printed(y, 1) == Printed(y, 4)
  {
    hide Digits, Fixed;
    assert Pow10(3) == 1000 && Pow10(4) == 10000;
    DigitsFixed(y, 4);
    FilledFixed(y, 4);
  }

  lemma {:induction false} NotBeforeItself(s: seq<Byte>)
    ensures !Before(s, s)
  {
    if s != [] { NotBeforeItself(s[1..]); }
  }

  /** Date and time decide first, then what the counter prints as. */
  lemma DateOrder(p: Picture, q: Picture)
    requires Dated(p) && Dated(q)
    ensures Before(Name(p), Name(q)) <==>
      Older(p.(counter := 0), q.(counter := 0))
      || (p.(counter := 0) == q.(counter := 0) && Before(FromCounter(p), FromCounter(q)))
  {
    hide Before, Printed, FromCounter;
    assert Pow10(2) == 100 && Pow10(4) == 10000;
    YearPrinted(p.year);
    YearPrinted(q.year);
    Field(p.year, q.year, 4, Text("_"), FromMonth(p), FromMonth(q));
    Field(p.month, q.month, 2, Text("_"), FromDay(p), FromDay(q));
    Field(p.day, q.day, 2, Text("_"), FromHour(p), FromHour(q));
    Field(p.hour, q.hour, 2, Text("_"), FromMinute(p), FromMinute(q));
    Field(p.minute, q.minute, 2, Text("_"), FromSecond(p), FromSecond(q));
    Field(p.second, q.second, 2, Text("_picture_"), FromCounter(p), FromCounter(q));
  }

  /** The alphabetic order of the names is the order of age. */
  lemma NameOrder(p: Picture, q: Picture)
    requires Representable(p) && Representable(q)
    ensures Before(Name(p), Name(q)) <==> Older(p, q)
    ensures Name(p) == Name(q) <==> p == q
  {
    NineDigits();
    DateOrder(p, q);
    DateOrder(q, p);
    NotBeforeItself(Name(p));
    NotBeforeItself(Text(".jpg"));
    FilledFixed(p.counter, 9);
    FilledFixed(q.counter, 9);
    FixedOrder(p.counter, q.counter, 9, Text(".jpg"), Text(".jpg"));
    FixedOrder(q.counter, p.counter, 9, Text(".jpg"), Text(".jpg"));
    hide Before, Name, Printed, Fixed, Text;
  }

  lemma NineDigits()
    ensures Pow10(9) == 1000000000
  {
    assert Pow10(5) == 100000;
    assert Pow10(9) == 10000 * Pow10(5);
  }

  // ----- counters of any width

  /** How many digits a counter is printed with. */
  function Width(n: nat): (w: nat)
    ensures w >= 9
  {
    Max(9, |Digits(n)|)
  }

  lemma {:induction false} Pow10Grows(v: nat, w: nat)
    requires v <= w
    ensures Pow10(v) <= Pow10(w)
    decreases w
  {
    if v < w { Pow10Grows(v, w - 1); }
  }

  lemma {:induction false} DigitsBound(n: nat)
    ensures n < Pow10(|Digits(n)|) && (n >= 10 ==> Pow10(|Digits(n)| - 1) <= n)
  {
    if n >= 10 {
      DigitsBound(n / 10);
      assert |Digits(n)| == |Digits(n / 10)| + 1;
      if n < 100 { assert |Digits(n / 10)| == 1; }
    }
  }

  lemma PrintedWidth(n: nat)
    ensures n < Pow10(Width(n)) && Printed(n, 9) == Fixed(n, Width(n))
  {
    var w := |Digits(n)|;
    DigitsBound(n);
    hide Digits, Pow10, Fixed;
    if w <= 9 {
      Pow10Grows(w, 9);
      FilledFixed(n, 9);
    } else {
      assert n >= 10 by { ShortDigits(n); }
      DigitsFixed(n, w);
      assert Fill(9 - w) + Digits(n) == Digits(n);
    }
  }

  lemma ShortDigits(n: nat)
    ensures n < 10 ==> |Digits(n)| == 1
  {
  }

  /** The last k digits left out. */
  function Shortened(n: nat, k: nat): nat
    decreases k
  {
    if k == 0 then n else Shortened(n / 10, k - 1)
  }

  lemma {:induction false} ShortenedIsQuotient(n: nat, k: nat)
    ensures Shortened(n, k) == n / Pow10(k)
    decreases k
  {
    if k > 0 {
      ShortenedIsQuotient(n / 10, k - 1);
      TenfoldDivisor(n, Pow10(k - 1));
    }
  }

  lemma TenfoldDivisor(n: nat, p: nat)
    requires p > 0
    ensures n / 10 / p == n / (10 * p)
  {
    var q, s, r := n / 10 / p, n / 10 % p, n % 10;
    assert n == 10 * (q * p + s) + r;
    assert 10 * (q * p + s) == q * (10 * p) + 10 * s;
    DivModIs(n, 10 * p, q, 10 * s + r);
  }

  lemma {:induction false} FixedFront(n: nat, w: nat, k: nat) returns (rest: seq<Byte>)
    ensures Fixed(n, w + k) == Fixed(Shortened(n, k), w) + rest
    ensures |rest| == k && (k > 0 ==> rest[0] >= 48)
    decreases k
  {
    if k == 0 {
      rest := [];
    } else {
      var last := [(48 + n % 10) as Byte];
      var r := FixedFront(n / 10, w, k - 1);
      rest := r + last;
      assert Fixed(n, w + k) == Fixed(n / 10, w + k - 1) + last;
      assert Fixed(Shortened(n, k), w) + r + last == Fixed(Shortened(n, k), w) + rest;
    }
  }

  lemma {:induction false} ShortenedFits(n: nat, w: nat, k: nat)
    requires n < Pow10(w + k)
    ensures Shortened(n, k) < Pow10(w)
    decreases k
  {
    if k > 0 { ShortenedFits(n / 10, w, k - 1); }
  }

  /** Text that starts with a digit comes behind the dot of the extension. */
  lemma DotBeforeDigits(rest: seq<Byte>)
    requires rest != [] && rest[0] >= 48
    ensures Before(Text(".jpg"), rest + Text(".jpg")) && !Before(rest + Text(".jpg"), Text(".jpg"))
  {
    assert Text(".jpg")[0] == 46;
  }

  /** Within one second counters of the same width sort by value. A wider one is compared without its
      extra digits, so the order of names is the order of age only from the right power of ten on. */
  lemma CounterOrder(p: Picture, q: Picture)
    requires Dated(p) && Dated(q) && p.(counter := 0) == q.(counter := 0)
    requires Width(p.counter) <= Width(q.counter)
    ensures var k := Width(q.counter) - Width(p.counter);
      && (Before(Name(p), Name(q)) <==>
          if k == 0 then p.counter < q.counter else p.counter <= q.counter / Pow10(k))
      && (Before(Name(q), Name(p)) <==> q.counter / Pow10(k) < p.counter)
  {
    hide Before, Name, Printed, Digits, Fixed, Text, Width, Pow10, Shortened;
    var w, k := Width(p.counter), Width(q.counter) - Width(p.counter);
    DateOrder(p, q);
    DateOrder(q, p);
    PrintedWidth(p.counter);
    PrintedWidth(q.counter);
    var rest := FixedFront(q.counter, w, k);
    var front := Shortened(q.counter, k);
    ShortenedFits(q.counter, w, k);
    ShortenedIsQuotient(q.counter, k);
    assert Fixed(front, w) + rest + Text(".jpg") == Fixed(front, w) + (rest + Text(".jpg"));
    FixedOrder(p.counter, front, w, Text(".jpg"), rest + Text(".jpg"));
    FixedOrder(front, p.counter, w, rest + Text(".jpg"), Text(".jpg"));
    if k == 0 {
      assert rest + Text(".jpg") == Text(".jpg");
      NotBeforeItself(Text(".jpg"));
      Pow10Zero();
    } else {
      DotBeforeDigits(rest);
    }
  }

  /** The first pair it goes wrong for: picture 999999999 is older than the next one of the same second
      and sorts behind it. */
  lemma BillionthSortsFirst(p: Picture, q: Picture)
    requires Dated(p) && p.counter == 999999999 && q == p.(counter := 1000000000)
    ensures Older(p, q) && Before(Name(q), Name(p))
  {
    NineDigits();
    assert Pow10(8) == 100000000 && Pow10(10) == 10000000000 && Pow10(1) == 10;
    WidthIs(p.counter, 9);
    WidthIs(q.counter, 10);
    hide Before, Name, Width;
    CounterOrder(p, q);
  }

  lemma WidthIs(n: nat, w: nat)
    requires w >= 9 && Pow10(w - 1) <= n < Pow10(w)
    ensures Width(n) == w
  {
    hide Digits, Pow10, Fixed;
    DigitsFixed(n, w);
  }

  lemma Pow10Zero()
    ensures Pow10(0) == 1
  {
  }

  // ----- reading a name

  lemma PrintedReadBack(n: nat, w: nat)
    ensures Number(Printed(n, w)) == n
  {
    hide Number, Digits;
    NumberOfDigits(n);
    NumberOfFilled(w - |Digits(n)|, Digits(n));
  }

  lemma TwoDigits(n: nat)
    requires n < 100
    ensures |Printed(n, 2)| == 2 && Number(Printed(n, 2)) == n
  {
    PrintedReadBack(n, 2);
    assert Pow10(2) == 100;
    FilledFixed(n, 2);
  }

  /** A field of two digits and what follows it. */
  lemma FieldAt(n: nat, sep: seq<Byte>, rest: seq<Byte>, name: seq<Byte>, at: nat)
    requires n < 100 && at <= |name| && name[at..] == Printed(n, 2) + sep + rest
    ensures at + 2 + |sep| <= |name| && Number(name[at..at + 2]) == n
    ensures name[at + 2..at + 2 + |sep|] == sep && name[at + 2 + |sep|..] == rest
  {
    TwoDigits(n);
    hide Printed, Number;
    var tail := name[at..];
    assert name[at..at + 2] == tail[..2];
    assert name[at + 2..at + 2 + |sep|] == tail[2..2 + |sep|];
    assert name[at + 2 + |sep|..] == tail[2 + |sep|..];
  }

  lemma YearAt(y: nat, rest: seq<Byte>, name: seq<Byte>)
    requires 1000 <= y < 10000 && name == Printed(y, 1) + Text("_") + rest
    ensures |name| >= 5 && Number(name[..4]) == y && name[4..5] == Text("_") && name[5..] == rest
  {
    PrintedReadBack(y, 1);
    YearPrinted(y);
    assert Pow10(4) == 10000;
    FilledFixed(y, 4);
    hide Printed, Number, Fixed, Text;
    assert name[..4] == Printed(y, 1);
  }

  /** Date, time and number can be read off a name, and nothing else is in it. */
  lemma NameReadBack(p: Picture)
    requires Dated(p)
    ensures var n := Name(p);
      && |n| >= 32 && Number(n[..4]) == p.year && Number(n[5..7]) == p.month && Number(n[8..10]) == p.day
      && Number(n[11..13]) == p.hour && Number(n[14..16]) == p.minute && Number(n[17..19]) == p.second
      && Number(n[28..|n| - 4]) == p.counter
    ensures var n := Name(p);
      && n[4..5] == n[7..8] == n[10..11] == n[13..14] == n[16..17] == Text("_")
      && n[19..28] == Text("_picture_") && n[|n| - 4..] == Text(".jpg") && |n[28..|n| - 4]| >= 9
  {
    var n := Name(p);
    hide Number, Printed;
    YearAt(p.year, FromMonth(p), n);
    FieldAt(p.month, Text("_"), FromDay(p), n, 5);
    FieldAt(p.day, Text("_"), FromHour(p), n, 8);
    FieldAt(p.hour, Text("_"), FromMinute(p), n, 11);
    FieldAt(p.minute, Text("_"), FromSecond(p), n, 14);
    FieldAt(p.second, Text("_picture_"), FromCounter(p), n, 17);
    CounterAt(p.counter, n);
  }

  lemma CounterAt(c: nat, name: seq<Byte>)
    requires 28 <= |name| && name[28..] == Printed(c, 9) + Text(".jpg")
    ensures |name| >= 32 && Number(name[28..|name| - 4]) == c && name[|name| - 4..] == Text(".jpg")
    ensures |name[28..|name| - 4]| >= 9
  {
    PrintedReadBack(c, 9);
    PrintedLength(c, 9);
    hide Printed, Number, Text;
    var tail := name[28..];
    assert name[28..|name| - 4] == tail[..|tail| - 4];
    assert name[|name| - 4..] == tail[|tail| - 4..];
  }

  lemma PrintedLength(n: nat, w: nat)
    ensures |Printed(n, w)| >= w
  {
  }

  // ----- the folder, listed by name

  /** Writing a picture; one of the same name is overwritten. */
  function Insert(folder: seq<Picture>, p: Picture): seq<Picture> {
    if folder == [] then [p]
    else if Name(folder[0]) == Name(p) then folder
    else if Before(Name(p), Name(folder[0])) then [p] + folder
    else [folder[0]] + Insert(folder[1..], p)
  }

  lemma {:induction false} BeforeTransitive(a: seq<Byte>, b: seq<Byte>, c: seq<Byte>)
    requires Before(a, b) && Before(b, c)
    ensures Before(a, c)
    decreases |a|
  {
    if a != [] && a[0] == b[0] == c[0] { BeforeTransitive(a[1..], b[1..], c[1..]); }
  }

  lemma {:induction false} BeforeTotal(a: seq<Byte>, b: seq<Byte>)
    ensures a == b || Before(a, b) || Before(b, a)
    ensures !(Before(a, b) && Before(b, a))
    decreases |a|
  {
    if a != [] && b != [] && a[0] == b[0] {
      BeforeTotal(a[1..], b[1..]);
      assert a == [a[0]] + a[1..] && b == [b[0]] + b[1..];
    }
  }

  /** As scandir with alphasort lists it. */
  ghost predicate Listed(folder: seq<Picture>) {
    forall i, j :: 0 <= i < j < |folder| ==> Before(Name(folder[i]), Name(folder[j]))
  }

  ghost predicate Named(folder: seq<Picture>, p: Picture) {
    exists q :: q in folder && Name(q) == Name(p)
  }

  lemma NotNamedBefore(folder: seq<Picture>, p: Picture)
    requires Listed(folder) && folder != [] && Before(Name(p), Name(folder[0]))
    ensures !Named(folder, p) && Listed([p] + folder)
  {
    hide Before, Name;
    NotBeforeItself(Name(p));
    forall i | 0 <= i < |folder| ensures Before(Name(p), Name(folder[i])) {
      if i > 0 { BeforeTransitive(Name(p), Name(folder[0]), Name(folder[i])); }
    }
  }

  lemma ListedBehind(q: Picture, rest: seq<Picture>, more: seq<Picture>, p: Picture)
    requires Listed([q] + rest) && Listed(more) && Before(Name(q), Name(p))
    requires forall r :: r in more ==> r == p || r in rest
    ensures Listed([q] + more)
  {
    hide Before, Name;
    forall r | r in rest ensures Before(Name(q), Name(r)) {
      var i :| 0 <= i < |rest| && rest[i] == r;
      assert ([q] + rest)[0] == q && ([q] + rest)[i + 1] == r;
    }
  }

  lemma NamedBehind(q: Picture, rest: seq<Picture>, p: Picture)
    requires Name(q) != Name(p)
    ensures Named([q] + rest, p) <==> Named(rest, p)
  {
    hide Name;
  }

  /** Writing keeps the listing in order, and adds just the picture, unless one of its name is there. */
  lemma {:induction false} InsertLists(folder: seq<Picture>, p: Picture)
    requires Listed(folder)
    ensures Listed(Insert(folder, p))
    ensures multiset(Insert(folder, p)) ==
      if Named(folder, p) then multiset(folder) else multiset(folder) + multiset{p}
  {
    hide Before, Name, Named, Listed;
    if folder == [] {
      NoneListed(p);
    } else {
      var q, rest := folder[0], folder[1..];
      assert folder == [q] + rest;
      BeforeTotal(Name(p), Name(q));
      if Name(q) == Name(p) {
        NamedHere(q, rest, p);
      } else if Before(Name(p), Name(q)) {
        NotNamedBefore(folder, p);
      } else {
        RestListed(q, rest);
        InsertLists(rest, p);
        var more := Insert(rest, p);
        forall r | r in more ensures r == p || r in rest { assert r in multiset(more); }
        ListedBehind(q, rest, more, p);
        NamedBehind(q, rest, p);
      }
    }
  }

  lemma NoneListed(p: Picture)
    ensures Listed([p]) && !Named([], p)
  {
  }

  lemma NamedHere(q: Picture, rest: seq<Picture>, p: Picture)
    requires Name(q) == Name(p)
    ensures Named([q] + rest, p)
  {
    hide Name;
    assert q in [q] + rest;
  }

  lemma RestListed(q: Picture, rest: seq<Picture>)
    requires Listed([q] + rest)
    ensures Listed(rest)
  {
    hide Before, Name;
    forall i, j | 0 <= i < j < |rest| ensures Before(Name(rest[i]), Name(rest[j])) {
      assert ([q] + rest)[i + 1] == rest[i] && ([q] + rest)[j + 1] == rest[j];
    }
  }

  /** unlink. */
  function Unlink(folder: seq<Picture>, p: Picture): seq<Picture> {
    if folder == [] then []
    else if folder[0] == p then folder[1..]
    else [folder[0]] + Unlink(folder[1..], p)
  }

  function Min(a: int, b: int): int {
    if a < b then a else b
  }

  function Max(a: int, b: int): int {
    if a > b then a else b
  }

  /** What the clean-up keeps; a negative size keeps everything. */
  function Kept(folder: seq<Picture>, size: int): (k: seq<Picture>)
    ensures size >= 0 ==> |k| <= size
  {
    if size < 0 then folder else folder[Max(|folder| - size, 0)..]
  }

  /** The clean-up runs behind picture number `counter`, counted from one. */
  predicate CleansUp(counter: nat, exceed: int) {
    exceed <= 0 || counter == 1 || counter % (exceed + 1) == 0
  }

  function After(folder: seq<Picture>, p: Picture, size: int, exceed: int): seq<Picture> {
    var more := Insert(folder, p);
    if CleansUp(p.counter + 1, exceed) then Kept(more, size) else more
  }

  // ----- deletes that fail

  /** The pictures that cannot be deleted. */
  function StuckOf(folder: seq<Picture>, stuck: set<Picture>): seq<Picture> {
    if folder == [] then []
    else
      var n := |folder| - 1;
      StuckOf(folder[..n], stuck) + if folder[n] in stuck then [folder[n]] else []
  }

  /** What is left of the listing behind i deletes. */
  function Deleted(names: seq<Picture>, i: nat, stuck: set<Picture>): seq<Picture>
    requires i <= |names|
  {
    StuckOf(names[..i], stuck) + names[i..]
  }

  /** What the clean-up leaves then: it only reports the failure, and goes on. */
  function Cleaned(folder: seq<Picture>, size: int, stuck: set<Picture>): seq<Picture> {
    if size < 0 then folder else Deleted(folder, Max(|folder| - size, 0), stuck)
  }

  function AfterCleaned(folder: seq<Picture>, p: Picture, size: int, exceed: int, stuck: set<Picture>): seq<Picture> {
    var more := Insert(folder, p);
    if CleansUp(p.counter + 1, exceed) then Cleaned(more, size, stuck) else more
  }

  lemma {:induction false} NoneStuck(folder: seq<Picture>)
    ensures StuckOf(folder, {}) == []
  {
    if folder != [] { NoneStuck(folder[..|folder| - 1]); }
  }

  lemma UnlinkBehind(front: seq<Picture>, rest: seq<Picture>)
    requires rest != [] && rest[0] !in front
    ensures Unlink(front + rest, rest[0]) == front + rest[1..]
  {
    if front == [] {
      assert front + rest == rest;
    } else {
      assert (front + rest)[1..] == front[1..] + rest;
      UnlinkBehind(front[1..], rest);
    }
  }

  lemma {:induction false} StuckAreStuck(folder: seq<Picture>, stuck: set<Picture>, p: Picture)
    requires p in StuckOf(folder, stuck)
    ensures p in stuck
  {
    var n := |folder| - 1;
    if p in StuckOf(folder[..n], stuck) { StuckAreStuck(folder[..n], stuck, p); }
  }

  lemma NoneYet(names: seq<Picture>, stuck: set<Picture>)
    ensures Deleted(names, 0, stuck) == names
  {
  }

  /** How often each of n directory entries was freed when the first i are. */
  function Freed(i: nat, n: nat): (f: seq<nat>)
    requires i <= n
    ensures |f| == n
  {
    seq(i, _ => 1) + seq(n - i, _ => 0)
  }

  lemma FreedEnds(n: nat)
    ensures Freed(0, n) == seq(n, _ => 0) && Freed(n, n) == seq(n, _ => 1)
  {
  }

  /** One more entry is freed. */
  lemma FreedStep(n: nat, i: nat)
    requires i < n
    ensures Freed(i, n)[i := Freed(i, n)[i] + 1] == Freed(i + 1, n)
  {
  }

  /** One pass of the deleting loop. */
  lemma DeleteStep(names: seq<Picture>, i: nat, stuck: set<Picture>)
    requires i < |names|
    ensures var folder, p := Deleted(names, i, stuck), names[i];
      (if p in stuck then folder else Unlink(folder, p)) == Deleted(names, i + 1, stuck)
  {
    var front, p := StuckOf(names[..i], stuck), names[i];
    assert names[..i + 1][..i] == names[..i];
    if p in stuck {
      assert front + names[i..] == front + [p] + names[i + 1..];
    } else {
      if p in front { StuckAreStuck(names[..i], stuck, p); }
      UnlinkBehind(front, names[i..]);
    }
  }

  lemma NoFailures(folder: seq<Picture>, size: int)
    ensures Cleaned(folder, size, {}) == Kept(folder, size)
  {
    if size >= 0 { NoneStuck(folder[..Max(|folder| - size, 0)]); }
  }

  /** If every delete succeeds just the newest pictures are left. */
  lemma AllDeleted(folder: seq<Picture>, p: Picture, size: int, exceed: int)
    ensures AfterCleaned(folder, p, size, exceed, {}) == After(folder, p, size, exceed)
  {
    NoFailures(Insert(folder, p), size);
  }

  /** A failing delete only leaves more: the newest pictures stay in any case, and every other one that
      is left could not be deleted. */
  lemma FailuresLeaveMore(folder: seq<Picture>, size: int, stuck: set<Picture>)
    ensures Newest(Kept(folder, size), Cleaned(folder, size, stuck))
    ensures var k, c := Kept(folder, size), Cleaned(folder, size, stuck);
      forall i :: 0 <= i < |c| - |k| ==> c[i] in stuck
  {
    if size >= 0 {
      var m := Max(|folder| - size, 0);
      var front := StuckOf(folder[..m], stuck);
      forall i | 0 <= i < |front| ensures front[i] in stuck { StuckAreStuck(folder[..m], stuck, front[i]); }
    }
  }

  class Recorder {
    const size: int
    const exceed: int
    var folder: seq<Picture>
    var counter: nat

    constructor (size: int, exceed: int, leftover: seq<Picture>)
      ensures this.size == size && this.exceed == exceed && folder == leftover && counter == 0
    {
      this.size, this.exceed, folder, counter := size, exceed, leftover, 0;
    }

    /** maintain_ringbuffer, where the pictures in `stuck` cannot be deleted. The result counts how often
        each directory entry was freed. */
    method MaintainRingbuffer(size: int, stuck: set<Picture>) returns (freed: seq<nat>)
      modifies this`folder
      ensures folder == Cleaned(old(folder), size, stuck)
      ensures size >= 0 ==> freed == seq(|old(folder)|, _ => 1)
    {
      hide Deleted, Unlink, Freed;
      freed := [];
      if size < 0 {
        return;
      }
      NoneYet(folder, stuck);
      var names := folder;
      var n := |names|;
      var m := Max(n - size, 0);
      FreedEnds(n);
      freed := seq(n, _ => 0);
      for i := 0 to m
        invariant folder == Deleted(names, i, stuck)
        invariant freed == Freed(i, n)
      {
        DeleteStep(names, i, stuck);
        if names[i] !in stuck {
          folder := Unlink(folder, names[i]);
        }
        FreedStep(n, i);
        freed := freed[i := freed[i] + 1];
      }
      for i := m to n
        invariant folder == Cleaned(names, size, stuck)
        invariant freed == Freed(i, n)
      {
        FreedStep(n, i);
        freed := freed[i := freed[i] + 1];
      }
    }

    /** One pass of the worker's loop behind the copy of the frame, at this time. */
    method Save(now: Picture, stuck: set<Picture>)
      requires now.counter == counter
      modifies this
      ensures folder == AfterCleaned(old(folder), now, size, exceed, stuck) && counter == old(counter) + 1
    {
      folder := Insert(folder, now);
      counter := counter + 1;
      if exceed <= 0 {
        var _ := MaintainRingbuffer(size, stuck);
      } else if counter == 1 || counter % (exceed + 1) == 0 {
        var _ := MaintainRingbuffer(size, stuck);
      }
    }
  }

  // ----- whole runs

  /** The program saves picture number 0, 1, 2, ... */
  ghost predicate Numbered(saved: seq<Picture>) {
    forall i :: 0 <= i < |saved| ==> saved[i].counter == i
  }

  function Run(leftover: seq<Picture>, saved: seq<Picture>, size: int, exceed: int): seq<Picture> {
    if saved == [] then leftover
    else After(Run(leftover, saved[..|saved| - 1], size, exceed), saved[|saved| - 1], size, exceed)
  }

  lemma {:induction false} InsertAdds(folder: seq<Picture>, p: Picture)
    ensures |Insert(folder, p)| <= |folder| + 1
  {
    if folder != [] { InsertAdds(folder[1..], p); }
  }

  /** How many pictures the clean-up has left uncounted behind number k. */
  function Excess(k: nat, exceed: int): nat
    requires k > 0
  {
    if exceed <= 0 then 0 else if k <= exceed then k - 1 else k % (exceed + 1)
  }

  lemma ExcessStep(k: nat, exceed: int)
    requires k > 0
    ensures Excess(k, exceed) <= Max(exceed, 0)
    ensures CleansUp(k, exceed) ==> Excess(k, exceed) == 0
    ensures k > 1 && !CleansUp(k, exceed) ==> Excess(k, exceed) == Excess(k - 1, exceed) + 1
  {
    if exceed > 0 && k > exceed + 1 {
      CountUp(k - 1, exceed + 1);
    }
  }

  /** Whatever was in the folder before, and whatever the clock says: behind every pass at most size
      and exceed pictures are left, one more before its clean-up. */
  lemma {:induction false} RunBound(leftover: seq<Picture>, saved: seq<Picture>, size: int, exceed: int)
    requires Numbered(saved) && saved != [] && size >= 0
    ensures |Run(leftover, saved, size, exceed)| <= size + Excess(|saved|, exceed) <= size + Max(exceed, 0)
    ensures |saved| > 1 ==>
      |Insert(Run(leftover, saved[..|saved| - 1], size, exceed), saved[|saved| - 1])| <= size + Max(exceed, 0) + 1
  {
    var n := |saved| - 1;
    ExcessStep(n + 1, exceed);
    InsertAdds(Run(leftover, saved[..n], size, exceed), saved[n]);
    if n > 0 {
      assert Numbered(saved[..n]);
      RunBound(leftover, saved[..n], size, exceed);
    }
  }

  /** Every picture is older than the ones behind it. */
  ghost predicate Aged(all: seq<Picture>) {
    forall i, j :: 0 <= i < j < |all| ==> Older(all[i], all[j])
  }

  /** Local time never goes back. */
  ghost predicate ClockForward(saved: seq<Picture>) {
    forall i, j :: 0 <= i < j < |saved| ==> !Older(saved[j].(counter := 0), saved[i].(counter := 0))
  }

  lemma ForwardIsAged(saved: seq<Picture>)
    requires Numbered(saved) && ClockForward(saved)
    ensures Aged(saved)
  {
    forall i, j | 0 <= i < j < |saved| ensures Older(saved[i], saved[j]) {
      assert saved[i].counter < saved[j].counter;
    }
  }

  ghost predicate AllRepresentable(all: seq<Picture>) {
    forall i :: 0 <= i < |all| ==> Representable(all[i])
  }

  lemma OlderOneWay(p: Picture, q: Picture)
    ensures Older(p, q) ==> !Older(q, p) && p != q
  {
  }

  lemma {:induction false} InsertNewest(folder: seq<Picture>, p: Picture)
    requires Representable(p) && AllRepresentable(folder)
    requires forall i :: 0 <= i < |folder| ==> Older(folder[i], p)
    ensures Insert(folder, p) == folder + [p]
  {
    hide Name, Before, Older, Representable;
    if folder != [] {
      NameOrder(folder[0], p);
      NameOrder(p, folder[0]);
      OlderOneWay(folder[0], p);
      assert [folder[0]] + (folder[1..] + [p]) == folder + [p];
      InsertNewest(folder[1..], p);
    }
  }

  lemma FrontAged(front: seq<Picture>, p: Picture)
    requires Aged(front + [p]) && AllRepresentable(front + [p])
    ensures Aged(front) && AllRepresentable(front) && Representable(p)
    ensures forall i :: 0 <= i < |front| ==> Older(front[i], p)
  {
    hide Older, Representable;
    var all := front + [p];
    assert all[|front|] == p;
    forall i, j | 0 <= i < j < |front| ensures Older(front[i], front[j]) { assert Older(all[i], all[j]); }
    forall i | 0 <= i < |front| ensures Older(front[i], p) && Representable(front[i]) {
      assert Older(all[i], all[|front|]) && Representable(all[i]);
    }
  }

  /** k holds the last pictures of all. */
  ghost predicate Newest(k: seq<Picture>, all: seq<Picture>) {
    |k| <= |all| && k == all[|all| - |k|..]
  }

  lemma AfterNewest(folder: seq<Picture>, p: Picture, size: int, exceed: int, front: seq<Picture>)
    requires Newest(folder, front) && Insert(folder, p) == folder + [p]
    ensures Newest(After(folder, p, size, exceed), front + [p])
    ensures size < 0 ==> After(folder, p, size, exceed) == folder + [p]
  {
    hide Insert;
    var more, all := folder + [p], front + [p];
    assert more == all[|all| - |more|..];
    assert Newest(Kept(more, size), all) by {
      if size >= 0 {
        var m := Max(|more| - size, 0);
        assert more[m..] == all[|all| - |more| + m..];
      }
    }
  }

  /** While local time does not go back and the fields have their widths, the folder holds the newest
      of all pictures there ever were: everything deleted is older than everything kept. */
  lemma {:induction false} RunKeepsNewest(leftover: seq<Picture>, saved: seq<Picture>, size: int, exceed: int)
    requires Numbered(saved) && Aged(leftover + saved) && AllRepresentable(leftover + saved)
    ensures Newest(Run(leftover, saved, size, exceed), leftover + saved)
    ensures size < 0 ==> Run(leftover, saved, size, exceed) == leftover + saved
  {
    hide *;
    if saved == [] {
      assert leftover + saved == leftover;
      RunNone(leftover, size, exceed);
    } else {
      var n := |saved| - 1;
      var front, p := leftover + saved[..n], saved[n];
      var folder := RunLast(leftover, saved, size, exceed);
      assert leftover + saved == front + [p];
      FrontAged(front, p);
      RunKeepsNewest(leftover, saved[..n], size, exceed);
      NewestAged(folder, front, p);
      InsertNewest(folder, p);
      AfterNewest(folder, p, size, exceed, front);
    }
  }

  lemma RunNone(leftover: seq<Picture>, size: int, exceed: int)
    ensures Run(leftover, [], size, exceed) == leftover && Newest(leftover, leftover)
  {
  }

  lemma RunLast(leftover: seq<Picture>, saved: seq<Picture>, size: int, exceed: int) returns (folder: seq<Picture>)
    requires Numbered(saved) && saved != []
    ensures var n := |saved| - 1;
      && Numbered(saved[..n]) && folder == Run(leftover, saved[..n], size, exceed)
      && Run(leftover, saved, size, exceed) == After(folder, saved[n], size, exceed)
  {
    folder := Run(leftover, saved[..|saved| - 1], size, exceed);
  }

  lemma NewestAged(folder: seq<Picture>, front: seq<Picture>, p: Picture)
    requires Newest(folder, front) && AllRepresentable(front)
    requires forall i :: 0 <= i < |front| ==> Older(front[i], p)
    ensures AllRepresentable(folder) && forall i :: 0 <= i < |folder| ==> Older(folder[i], p)
  {
    hide Older, Representable;
    forall i | 0 <= i < |folder| ensures Older(folder[i], p) && Representable(folder[i]) {
      assert folder[i] == front[|front| - |folder| + i];
    }
  }

  /** How many pictures are left behind a pass. */
  lemma AfterCount(folder: seq<Picture>, p: Picture, size: int, exceed: int)
    requires Insert(folder, p) == folder + [p] && size >= 0
    ensures |After(folder, p, size, exceed)| ==
      if CleansUp(p.counter + 1, exceed) then Min(size, |folder| + 1) else |folder| + 1
  {
    hide Insert;
  }

  /** And exactly as many as it should: all there ever were, until these are more than size and the
      pictures saved since the last clean-up. With RunKeepsNewest this says what the folder holds. */
  lemma {:induction false} RunCount(leftover: seq<Picture>, saved: seq<Picture>, size: int, exceed: int)
    requires Numbered(saved) && Aged(leftover + saved) && AllRepresentable(leftover + saved)
    requires saved != [] && size >= 0
    ensures |Run(leftover, saved, size, exceed)| ==
      Min(size + Excess(|saved|, exceed), |leftover| + |saved|)
  {
    hide *;
    var n := |saved| - 1;
    var front, p := leftover + saved[..n], saved[n];
    var folder := RunLast(leftover, saved, size, exceed);
    assert leftover + saved == front + [p];
    FrontAged(front, p);
    RunKeepsNewest(leftover, saved[..n], size, exceed);
    NewestAged(folder, front, p);
    InsertNewest(folder, p);
    AfterCount(folder, p, size, exceed);
    ExcessStep(n + 1, exceed);
    LastNumber(saved);
    if n == 0 {
      assert saved[..n] == [];
      RunNone(leftover, size, exceed);
      FirstCleansUp(exceed);
    } else {
      RunCount(leftover, saved[..n], size, exceed);
    }
    CountStep(|folder|, size, exceed, |leftover|, n);
  }

  lemma LastNumber(saved: seq<Picture>)
    requires Numbered(saved) && saved != []
    ensures saved[|saved| - 1].counter == |saved| - 1
  {
  }

  lemma FirstCleansUp(exceed: int)
    ensures CleansUp(1, exceed)
  {
  }

  lemma CountStep(count: nat, size: int, exceed: int, before: nat, n: nat)
    requires size >= 0
    requires n == 0 ==> count == before && CleansUp(1, exceed)
    requires n > 0 ==> count == Min(size + Excess(n, exceed), before + n)
    ensures (if CleansUp(n + 1, exceed) then Min(size, count + 1) else count + 1)
      == Min(size + Excess(n + 1, exceed), before + n + 1)
  {
    ExcessStep(n + 1, exceed);
    hide CleansUp, Excess;
  }

  // ----- whole runs with deletes that fail

  /** The folder behind a run where at pass number k the pictures in stuck[k] cannot be deleted. */
  function RunFailing(leftover: seq<Picture>, saved: seq<Picture>, size: int, exceed: int,
                      stuck: seq<set<Picture>>): seq<Picture>
    requires |stuck| == |saved|
  {
    if saved == [] then leftover
    else
      var n := |saved| - 1;
      AfterCleaned(RunFailing(leftover, saved[..n], size, exceed, stuck[..n]), saved[n], size, exceed, stuck[n])
  }

  /** What could not be deleted at some time. */
  function Ever(stuck: seq<set<Picture>>): set<Picture> {
    if stuck == [] then {} else Ever(stuck[..|stuck| - 1]) + stuck[|stuck| - 1]
  }

  /** c is k with more pictures in front, all of these. */
  ghost predicate Delays(k: seq<Picture>, c: seq<Picture>, these: set<Picture>) {
    Newest(k, c) && forall i :: 0 <= i < |c| - |k| ==> c[i] in these
  }

  ghost predicate AllIn(c: seq<Picture>, all: seq<Picture>) {
    forall i :: 0 <= i < |c| ==> c[i] in all
  }

  lemma KeptDelays(k: seq<Picture>, c: seq<Picture>, size: int, these: set<Picture>)
    requires Delays(k, c, these)
    ensures Delays(Kept(k, size), Kept(c, size), these)
  {
    if size >= 0 {
      var d, mk, mc := |c| - |k|, Max(|k| - size, 0), Max(|c| - size, 0);
      assert mc <= mk + d && (mk > 0 ==> mc == mk + d);
      hide Max;
      assert Newest(k[mk..], c[mc..]) by { assert k[mk..] == c[mk + d..] == c[mc..][mk + d - mc..]; }
      forall i | 0 <= i < mk + d - mc ensures c[mc..][i] in these { assert c[mc..][i] == c[mc + i]; }
    }
  }

  lemma DelaysConcat(k: seq<Picture>, c: seq<Picture>, d: seq<Picture>, these: set<Picture>)
    requires Delays(k, c, these) && Delays(c, d, these)
    ensures Delays(k, d, these)
  {
    forall i | 0 <= i < |d| - |k| ensures d[i] in these {
      if i >= |d| - |c| { assert d[i] == c[i - (|d| - |c|)]; }
    }
  }

  lemma {:induction false} StuckAreThere(folder: seq<Picture>, stuck: set<Picture>)
    ensures AllIn(StuckOf(folder, stuck), folder)
  {
    if folder != [] { StuckAreThere(folder[..|folder| - 1], stuck); }
  }

  lemma AfterDelays(k: seq<Picture>, c: seq<Picture>, p: Picture, size: int, exceed: int, stuck: set<Picture>,
                    these: set<Picture>)
    requires Delays(k, c, these) && stuck <= these && Insert(k, p) == k + [p] && Insert(c, p) == c + [p]
    ensures Delays(After(k, p, size, exceed), AfterCleaned(c, p, size, exceed, stuck), these)
    ensures AllIn(AfterCleaned(c, p, size, exceed, stuck), c + [p])
  {
    hide Insert, Cleaned, Kept;
    var k', c' := k + [p], c + [p];
    assert Delays(k', c', these);
    KeptDelays(k', c', size, these);
    FailuresLeaveMore(c', size, stuck);
    DelaysConcat(Kept(k', size), Kept(c', size), Cleaned(c', size, stuck), these);
    CleanedIn(c', size, stuck);
  }

  lemma CleanedIn(folder: seq<Picture>, size: int, stuck: set<Picture>)
    ensures AllIn(Cleaned(folder, size, stuck), folder)
  {
    if size >= 0 { StuckAreThere(folder[..Max(|folder| - size, 0)], stuck); }
  }

  lemma InAged(c: seq<Picture>, front: seq<Picture>, p: Picture)
    requires AllIn(c, front) && AllRepresentable(front)
    requires forall i :: 0 <= i < |front| ==> Older(front[i], p)
    ensures AllRepresentable(c) && forall i :: 0 <= i < |c| ==> Older(c[i], p)
  {
    hide Older, Representable;
  }

  /** Over a whole run failing deletes do not lose a picture, and every picture the folder holds beyond
      those it should could not be deleted at some time. */
  lemma {:induction false} RunFailingKeepsNewest(leftover: seq<Picture>, saved: seq<Picture>, size: int,
                                                 exceed: int, stuck: seq<set<Picture>>)
    requires |stuck| == |saved|
    requires Numbered(saved) && Aged(leftover + saved) && AllRepresentable(leftover + saved)
    ensures var c := RunFailing(leftover, saved, size, exceed, stuck);
      Delays(Run(leftover, saved, size, exceed), c, Ever(stuck)) && AllIn(c, leftover + saved)
  {
    hide Aged, AllRepresentable, Newest, AfterCleaned, After, Insert, Older, Representable;
    if saved == [] {
      RunNone(leftover, size, exceed);
      assert leftover + saved == leftover;
    } else {
      var n := |saved| - 1;
      var front, p := leftover + saved[..n], saved[n];
      var folder := RunLast(leftover, saved, size, exceed);
      assert leftover + saved == front + [p];
      FrontAged(front, p);
      RunKeepsNewest(leftover, saved[..n], size, exceed);
      NewestAged(folder, front, p);
      InsertNewest(folder, p);
      RunFailingKeepsNewest(leftover, saved[..n], size, exceed, stuck[..n]);
      var c := RunFailing(leftover, saved[..n], size, exceed, stuck[..n]);
      InAged(c, front, p);
      InsertNewest(c, p);
      AfterDelays(folder, c, p, size, exceed, stuck[n], Ever(stuck));
    }
  }
}
