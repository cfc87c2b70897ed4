/** What the digits of the format mean, and what the events of a dictionary are, member by member. */
module BencodeNumbers {
  import opened Octets
  import opened Bits
  import opened Bencode

  // ---- Decimal numbers ----

  function Pow10(n: nat): (p: nat)
    ensures p >= 1
  {
    if n == 0 then 1 else 10 * Pow10(n - 1)
  }

  lemma NumOne(b: Octet)
    requires IsDigit(b)
    ensures Num([b]) == b - 0x30
  {
    assert [b][..0] == [];
  }

  lemma NumLast(ds: seq<Octet>, b: Octet)
    requires AllDigits(ds) && IsDigit(b)
    ensures AllDigits(ds + [b]) && Num(ds + [b]) == 10 * Num(ds) + (b - 0x30)
  {
    assert (ds + [b])[..|ds|] == ds;
  }

  lemma {:induction false} NumAppend(a: seq<Octet>, b: seq<Octet>)
    requires AllDigits(a) && AllDigits(b)
    ensures AllDigits(a + b) && Num(a) * Pow10(|b|) >= 0 && Num(a + b) == Num(a) * Pow10(|b|) + Num(b)
  {
    if b == [] {
      assert a + b == a;
    } else {
      var n := |b| - 1;
      var c, d := b[..n], b[n];
      assert a + b == a + c + [d] && b == c + [d];
      DigitParts(b, n);
      hide Num, AllDigits;
      NumAppend(a, c);
      NumLast(a + c, d);
      NumLast(c, d);
      TenTimes(Num(a), Pow10(n));
    }
  }

  lemma TenTimes(x: int, p: int)
    ensures 10 * (x * p) == x * (10 * p)
  {}

  lemma {:induction false} NumBound(ds: seq<Octet>)
    requires AllDigits(ds)
    ensures Num(ds) < Pow10(|ds|)
  {
    if ds != [] {
      assert ds[|ds| - 1] in ds;
      NumBound(ds[..|ds| - 1]);
    }
  }

  /** Digit i of a numeral is the digit of its number at the place |ds| - 1 - i. */
  lemma DigitAt(ds: seq<Octet>, i: nat)
    requires AllDigits(ds) && i < |ds|
    ensures ds[i] as int - 0x30 == Num(ds) / Pow10(|ds| - 1 - i) % 10
  {
    var a, b, c := ds[..i], ds[i], ds[i + 1..];
    DigitParts(ds, i);
    hide Num, Pow10, AllDigits;
    NumLast(a, b);
    NumAppend(a + [b], c);
    NumBound(c);
    PlaceDigit(Num(ds), Pow10(|c|), Num(a), b as int - 0x30, Num(c));
  }

  lemma DigitParts(ds: seq<Octet>, i: nat)
    requires AllDigits(ds) && i < |ds|
    ensures AllDigits(ds[..i]) && IsDigit(ds[i]) && AllDigits(ds[i + 1..]) && ds == ds[..i] + [ds[i]] + ds[i + 1..]
  {
    assert ds[i] in ds;
  }

  lemma PlaceDigit(n: int, p: int, x: int, d: int, r: int)
    requires p >= 1 && n == (10 * x + d) * p + r && 0 <= r < p && 0 <= d < 10
    ensures n / p % 10 == d
  {
    var q := 10 * x + d;
    assert n == p * q + r;
    DivUnique(n, p, q, r);
  }

  lemma TenIs()
    ensures Pow10(1) == 10
  {}

  /** The usual decimal form of a number. */
  function Decimal(n: nat): seq<Octet> {
    if n < 10 then [0x30 + n] else Decimal(n / 10) + [0x30 + n % 10]
  }

  lemma {:induction false} NumDecimal(n: nat)
    ensures Numeral(Decimal(n)) && Num(Decimal(n)) == n
  {
    if n < 10 {
      NumOne(0x30 + n);
    } else {
      NumDecimal(n / 10);
      NumAppend(Decimal(n / 10), [0x30 + n % 10]);
      NumOne(0x30 + n % 10);
      TenIs();
    }
  }

  // ---- Members ----

  function Nth(vs: Vals, k: nat): Val
    requires k < Count(vs)
  {
    if k == Count(vs.init) then vs.last else Nth(vs.init, k)
  }

  /** e reports v under the name. */
  predicate Reports(e: Event, name: seq<Octet>, v: Val)
    requires WellFormed(v)
  {
    e.name == name &&
    match v
    case Int(neg, ds) => e.IntEvent? && e.value == if neg then -(Num(ds) as int) else Num(ds)
    case Str(_, data) => e.StrEvent? && e.data == data
    case Compound(k, items) => e.RawEvent? && e.kind == k && e.raw == Text(v)
  }

  /** Event i reports member 2i + 1 of the dictionary under member 2i, its key. */
  lemma {:induction false} EventAt(vs: Vals, i: nat)
    requires ItemsOk(D, vs) && i < Count(vs) / 2
    ensures |EventsOf(vs)| == Count(vs) / 2
    ensures WellFormed(Nth(vs, 2 * i + 1)) && Nth(vs, 2 * i).Str?
    ensures Reports(EventsOf(vs)[i], Nth(vs, 2 * i).data, Nth(vs, 2 * i + 1))
    decreases vs
  {
    hide Num, Text;
    if KeyNext(D, vs.init) {
      EventAt(vs.init, i);
    } else {
      var init := vs.init.init;
      assert vs.init.Snoc? && KeyNext(D, init) && ItemsOk(D, init);
      EventCount(init);
      if i < Count(init) / 2 { EventAt(init, i); }
    }
  }

  lemma {:induction false} EventCount(vs: Vals)
    requires ItemsOk(D, vs)
    ensures |EventsOf(vs)| == Count(vs) / 2
    decreases vs
  {
    hide Num, Text;
    if vs.Snoc? {
      if KeyNext(D, vs.init) {
        EventCount(vs.init);
      } else {
        assert vs.init.Snoc? && KeyNext(D, vs.init.init) && ItemsOk(D, vs.init);
        EventCount(vs.init.init);
      }
    }
  }

  // ---- Two members, written in the usual way ----

  /** A string behind its length. */
  function StrForm(s: seq<Octet>): seq<Octet> { Decimal(|s|) + [0x3A] + s }

  /** An integer between i and e. */
  function IntForm(n: int): seq<Octet> {
    [0x69] + (if n < 0 then [0x2D] + Decimal(-n) else Decimal(n)) + [0x65]
  }

  /** A list of strings between l and e. */
  function ListForm(ss: seq<seq<Octet>>): seq<Octet> { [0x6C] + StrForms(ss) + [0x65] }

  function StrForms(ss: seq<seq<Octet>>): seq<Octet> {
    if ss == [] then [] else StrForms(ss[..|ss| - 1]) + StrForm(ss[|ss| - 1])
  }

  /** A dictionary with an integer, a string and a list under three keys. */
  function Response(k: seq<Octet>, n: int, l: seq<Octet>, s: seq<Octet>, m: seq<Octet>, ss: seq<seq<Octet>>)
    : seq<Octet>
  {
    [0x64] + StrForm(k) + IntForm(n) + StrForm(l) + StrForm(s) + StrForm(m) + ListForm(ss) + [0x65]
  }

  function StrOf(s: seq<Octet>): Val { Str(Decimal(|s|), s) }

  function IntOf(n: int): Val { if n < 0 then Int(true, Decimal(-n)) else Int(false, Decimal(n)) }

  function StrsOf(ss: seq<seq<Octet>>): Vals {
    if ss == [] then Nil else Snoc(StrsOf(ss[..|ss| - 1]), StrOf(ss[|ss| - 1]))
  }

  lemma StrOfOk(s: seq<Octet>)
    ensures WellFormed(StrOf(s)) && Text(StrOf(s)) == StrForm(s)
  {
    NumDecimal(|s|);
    hide Num, Decimal;
  }

  lemma IntOfOk(n: int)
    ensures WellFormed(IntOf(n)) && Text(IntOf(n)) == IntForm(n)
    ensures EventOf([], IntOf(n)).value == n && forall name :: EventOf(name, IntOf(n)) == IntEvent(name, n)
  {
    NumDecimal(if n < 0 then -n else n);
    hide Num, Decimal;
    if n < 0 {
      assert [0x69] + [0x2D] + Decimal(-n) + [0x65] == [0x69] + ([0x2D] + Decimal(-n)) + [0x65];
    } else {
      assert [0x69] + [] + Decimal(n) + [0x65] == [0x69] + Decimal(n) + [0x65];
    }
  }

  lemma {:induction false} StrsOfOk(ss: seq<seq<Octet>>)
    ensures ItemsOk(L, StrsOf(ss)) && ItemsText(StrsOf(ss)) == StrForms(ss)
  {
    if ss != [] {
      StrsOfOk(ss[..|ss| - 1]);
      StrOfOk(ss[|ss| - 1]);
      hide StrOf, StrForm;
    }
  }

  function ListOf(ss: seq<seq<Octet>>): Val { Compound(L, StrsOf(ss)) }

  lemma ListOfOk(ss: seq<seq<Octet>>)
    ensures WellFormed(ListOf(ss)) && Text(ListOf(ss)) == ListForm(ss)
  {
    StrsOfOk(ss);
    hide StrsOf;
  }

  /** The response is the text of a dictionary with three events. */
  lemma ResponseIs(k: seq<Octet>, n: int, l: seq<Octet>, s: seq<Octet>, m: seq<Octet>, ss: seq<seq<Octet>>)
    returns (d: Val)
    ensures Dictionary(d) && Text(d) == Response(k, n, l, s, m, ss)
    ensures EventsOf(d.items) == [IntEvent(k, n), StrEvent(l, s), RawEvent(m, L, ListForm(ss))]
  {
    StrOfOk(k);
    IntOfOk(n);
    StrOfOk(l);
    StrOfOk(s);
    StrOfOk(m);
    ListOfOk(ss);
    var a := Snoc(Snoc(Nil, StrOf(k)), IntOf(n));
    var b := Snoc(Snoc(a, StrOf(l)), StrOf(s));
    var c := Snoc(Snoc(b, StrOf(m)), ListOf(ss));
    d := Compound(D, c);
    hide Num, Decimal, StrsOf;
    TwoMore(Nil, StrOf(k), IntOf(n));
    TwoMore(a, StrOf(l), StrOf(s));
    TwoMore(b, StrOf(m), ListOf(ss));
    assert ItemsText(Nil) == [];
    assert ItemsText(c) == [] + StrForm(k) + IntForm(n) + StrForm(l) + StrForm(s) + StrForm(m) + ListForm(ss);
    hide WellFormed, ItemsOk, ItemsText, EventsOf, StrForm, IntForm, ListForm;
    SevenParts([0x64], StrForm(k), IntForm(n), StrForm(l), StrForm(s), StrForm(m), ListForm(ss), [0x65]);
  }

  lemma SevenParts(o: seq<Octet>, a: seq<Octet>, b: seq<Octet>, c: seq<Octet>, d: seq<Octet>, e: seq<Octet>,
                   f: seq<Octet>, z: seq<Octet>)
    ensures o + ([] + a + b + c + d + e + f) + z == o + a + b + c + d + e + f + z
  {}

  lemma TwoMore(vs: Vals, key: Val, v: Val)
    requires ItemsOk(D, vs) && Count(vs) % 2 == 0 && WellFormed(key) && key.Str? && WellFormed(v)
    ensures var us := Snoc(Snoc(vs, key), v);
            && ItemsOk(D, us) && Count(us) % 2 == 0 && EventsOf(us) == EventsOf(vs) + [EventOf(key.data, v)]
            && ItemsText(us) == ItemsText(vs) + Text(key) + Text(v)
  {
    hide Num, Text;
  }
}
