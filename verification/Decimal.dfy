/** Decimal and dotted-quad conversion of the network code (netboot/misc.c):
    the `%d` and `%@` conversions of etherboot_vsprintf, and their readers getdec and inet_aton.

    Memory holding a C string is a `string`; reading past its end yields NUL. */
module Decimal {
  import opened Seqs

  const INT_MIN: int := -0x8000_0000
  const INT_MAX: int := 0x7FFF_FFFF

  /** The char at address `i` of the memory `mem`. */
  function At(mem: string, i: nat): char {
    if i < |mem| then mem[i] else '\0'
  }

  predicate IsDigit(c: char) {
    '0' <= c <= '9'
  }

  function DigitChar(d: nat): char
    requires d < 10
  {
    ('0' as int + d) as char
  }

  function DigitValue(c: char): nat
    requires IsDigit(c)
  {
    c as int - '0' as int
  }

  /** The usual decimal numeral of `n`, most significant digit first. */
  function Render(n: nat): string {
    if n < 10 then [DigitChar(n)] else Render(n / 10) + [DigitChar(n % 10)]
  }

  ghost predicate AllDigits(s: string) {
    forall i :: 0 <= i < |s| ==> IsDigit(s[i])
  }

  /** The number a string of digits denotes. */
  function Value(s: string): nat
    requires AllDigits(s)
  {
    if s == [] then 0 else Value(s[..|s| - 1]) * 10 + DigitValue(s[|s| - 1])
  }

  /** Two's complement truncation to a 32-bit int. */
  function Wrap32(x: int): int {
    (x + 0x8000_0000) % 0x1_0000_0000 - 0x8000_0000
  }

  /** The address of the first non-digit at or after `p`. */
  function DigitEnd(mem: string, p: nat): (q: nat)
    ensures p <= q
    ensures !IsDigit(At(mem, q))
    ensures q == p || q <= |mem|
    ensures forall i :: p <= i < q ==> i < |mem| && IsDigit(mem[i])
    decreases |mem| - p
  {
    if p < |mem| && IsDigit(mem[p]) then DigitEnd(mem, p + 1) else p
  }

  /** What getdec returns for the string at `p`, and where it leaves the pointer. */
  ghost function Getdec(mem: string, p: nat): (int, nat) {
    if !IsDigit(At(mem, p)) then (-1, p)
    else (Wrap32(Value(mem[p..DigitEnd(mem, p)])), DigitEnd(mem, p))
  }

  lemma WrapStep(x: int, d: int)
    ensures Wrap32(Wrap32(x) * 10 + d) == Wrap32(x * 10 + d)
  {
  }

  /** getdec: reads a decimal number, or answers -1 without moving when there is none. */
  method GetdecAt(mem: string, p: nat) returns (ret: int, q: nat)
    ensures (ret, q) == Getdec(mem, p)
  {
    ret, q := 0, p;
    if !IsDigit(At(mem, p)) {
      return -1, p;
    }
    while IsDigit(At(mem, q))
      invariant p <= q <= |mem|
      invariant forall i :: p <= i < q ==> IsDigit(mem[i])
      invariant DigitEnd(mem, q) == DigitEnd(mem, p)
      invariant ret == Wrap32(Value(mem[p..q]))
      decreases |mem| - q
    {
      assert mem[p..q + 1][..q - p] == mem[p..q];
      WrapStep(Value(mem[p..q]), DigitValue(mem[q]));
      ret := Wrap32(ret * 10 + DigitValue(At(mem, q)));
      q := q + 1;
    }
  }

  lemma {:induction false} RenderDigits(n: nat)
    ensures AllDigits(Render(n)) && |Render(n)| > 0
    ensures Value(Render(n)) == n
    ensures if n == 0 then Render(n) == "0" else Render(n)[0] != '0'
  {
    if n < 10 {
      assert Render(n)[..0] == [];
    } else {
      RenderDigits(n / 10);
      assert Render(n)[..|Render(n)| - 1] == Render(n / 10);
    }
  }

  lemma {:induction false} DigitEndOfRun(mem: string, p: nat, q: nat)
    requires p <= q <= |mem| && AllDigits(mem[p..q]) && !IsDigit(At(mem, q))
    ensures DigitEnd(mem, p) == q
    decreases q - p
  {
    if p < q {
      assert IsDigit(mem[p..q][0]);
      assert mem[p + 1..q] == mem[p..q][1..];
      DigitEndOfRun(mem, p + 1, q);
    }
  }

  /** The numeral of `n` stands at `p` and ends there. */
  ghost predicate NumeralAt(mem: string, p: nat, n: nat) {
    && p + |Render(n)| <= |mem|
    && mem[p..p + |Render(n)|] == Render(n)
    && !IsDigit(At(mem, p + |Render(n)|))
  }

  /** Parsing undoes printing: getdec reads back any non-negative int written in decimal, wherever
      the numeral stands, and leaves the pointer just behind it. */
  lemma GetdecUndoesRender(mem: string, p: nat, n: nat)
    requires n <= INT_MAX
    requires NumeralAt(mem, p, n)
    ensures Getdec(mem, p) == (n, p + |Render(n)|)
  {
    RenderDigits(n);
    DigitEndOfRun(mem, p, p + |Render(n)|);
    assert mem[p] == Render(n)[0];
  }

  ghost function Reversed(s: string): (r: string)
    ensures |r| == |s|
  {
    if s == [] then [] else Reversed(s[1..]) + [s[0]]
  }

  lemma {:induction false} ReversedAt(s: string, k: nat)
    requires k < |s|
    ensures Reversed(s)[k] == s[|s| - 1 - k]
  {
    if k < |s| - 1 {
      ReversedAt(s[1..], k);
    }
  }

  lemma {:induction false} ReversedSnoc(s: string, c: char)
    ensures Reversed(s + [c]) == [c] + Reversed(s)
  {
    if s == [] {
      assert (s + [c])[1..] == [];
    } else {
      ReversedSnoc(s[1..], c);
      assert (s + [c])[1..] == s[1..] + [c];
    }
  }

  /** A number below a power of ten has at most as many digits. */
  lemma RenderIsShort(n: nat, limit: nat, digits: nat)
    requires n < limit && 0 < digits
    requires limit == Pow10(digits)
    ensures |Render(n)| <= digits
  {
    if n >= 10 && digits > 1 {
      RenderIsShort(n / 10, Pow10(digits - 1), digits - 1);
    }
  }

  ghost function Pow10(k: nat): nat {
    if k == 0 then 1 else 10 * Pow10(k - 1)
  }

  /** The text `%d` stands for. */
  function SignedText(i: int): string {
    if i < 0 then "-" + Render(-i) else Render(i)
  }

  /** C's remainder and quotient by ten, which truncate towards zero. */
  function RemTen(i: int): int {
    if i >= 0 then i % 10 else -((-i) % 10)
  }

  function QuoTen(i: int): int {
    if i >= 0 then i / 10 else -((-i) / 10)
  }

  /** The characters the digit loop emits for `i`, most significant first: below zero they count down from '0'. */
  function Emitted(i: int): (t: string)
    ensures |t| > 0
    decreases if i >= 0 then i else -i
  {
    var c := ('0' as int + RemTen(i)) as char;
    if QuoTen(i) == 0 then [c] else Emitted(QuoTen(i)) + [c]
  }

  lemma {:induction false} EmittedIsRender(n: nat)
    ensures Emitted(n) == Render(n)
  {
    if n >= 10 {
      EmittedIsRender(n / 10);
    }
  }

  lemma {:induction false} EmittedIsShort(i: int, digits: nat)
    requires 0 < digits && i < Pow10(digits) && -i < Pow10(digits)
    ensures |Emitted(i)| <= digits
    decreases digits
  {
    if QuoTen(i) != 0 && digits > 1 {
      EmittedIsShort(QuoTen(i), digits - 1);
    }
  }

  /** Negation of an int wraps around at INT_MIN. */
  function Negated(i: int): int {
    Wrap32(-i)
  }

  /** What `%d` prints. */
  function Formatted(n: int): string {
    if n < 0 then "-" + Emitted(Negated(n)) else Emitted(n)
  }

  /** `%d` prints the sign and the numeral of every int but INT_MIN, which stays negative when negated. */
  lemma FormattedIsTextIff(n: int)
    requires INT_MIN <= n <= INT_MAX
    ensures Formatted(n) == SignedText(n) <==> n != INT_MIN
  {
    hide Emitted;
    hide Render;
    if n == INT_MIN {
      IntMinIsGarbled();
      RenderDigits(-n);
      assert SignedText(n)[1] == Render(-n)[0];
    } else {
      EmittedIsRender(if n < 0 then -n else n);
    }
  }

  /** One more digit below zero. */
  lemma EmittedNext(i: int, d: nat)
    requires i < 0 && d < 10
    ensures Emitted(10 * i - d) == Emitted(i) + [('0' as int - d) as char]
  {
  }

  lemma LeadingDigits()
    ensures Emitted(-21474) == "./,),"
  {
    assert Emitted(-2) == ".";
    EmittedNext(-2, 1);
    EmittedNext(-21, 4);
    EmittedNext(-214, 7);
    EmittedNext(-2147, 4);
    hide Emitted;
    assert Emitted(-21474) == "." + "/" + "," + ")" + ",";
  }

  lemma TrailingDigits()
    ensures Emitted(-2147483648) == Emitted(-21474) + "(-*,("
  {
    hide Emitted;
    EmittedNext(-21474, 8);
    EmittedNext(-214748, 3);
    EmittedNext(-2147483, 6);
    EmittedNext(-21474836, 4);
    EmittedNext(-214748364, 8);
    assert Emitted(-2147483648) == Emitted(-21474) + "(" + "-" + "*" + "," + "(";
  }

  lemma IntMinIsGarbled()
    ensures Formatted(INT_MIN) == "-./,),(-*,("
  {
    hide Emitted;
    LeadingDigits();
    TrailingDigits();
  }

  /** The digit loop of `%d`: digits come out least significant first. */
  method EmitDigits(tmp: array<char>, p: nat, n: int) returns (q: nat)
    requires p + 10 <= tmp.Length && INT_MIN <= n <= INT_MAX
    modifies tmp
    ensures p < q <= p + 10
    ensures Reversed(tmp[p..q]) == Emitted(n)
    ensures tmp[..p] == old(tmp[..p])
  {
    assert |Emitted(n)| <= 10 by {
      assert Pow10(5) == 100_000;
      assert Pow10(10) == 100_000 * Pow10(5);
      EmittedIsShort(n, 10);
    }
    var i := n;
    q := p;
    ghost var low: string := "";
    while true
      invariant p <= q <= p + 10 && |low| == q - p && |Reversed(low)| == |low|
      invariant tmp[p..q] == low && tmp[..p] == old(tmp[..p])
      invariant Emitted(n) == Emitted(i) + Reversed(low)
      decreases if i >= 0 then i else -i
    {
      var c := ('0' as int + RemTen(i)) as char;
      tmp[q] := c;
      q := q + 1;
      ReversedSnoc(low, c);
      low := low + [c];
      assert tmp[p..q] == low;
      i := QuoTen(i);
      if i == 0 {
        break;
      }
    }
  }

  /** `%d`: the digits are emitted backwards and then reversed in place. */
  method FormatInt(n: int) returns (text: string)
    requires INT_MIN <= n <= INT_MAX
    ensures text == Formatted(n)
  {
    var tmp := new char[20];
    var p := 0;
    var i := n;
    if i < 0 {
      tmp[0] := '-';
      p := 1;
      i := Negated(i);
    }
    ghost var sign := tmp[..p];
    assert sign == if n < 0 then "-" else "";
    var q := EmitDigits(tmp, p, i);
    assert tmp[..p] == sign;
    ReverseInPlace(tmp, p, q);
    text := tmp[..q];
    assert text == tmp[..p] + tmp[p..q];
  }

  /** The reversal loop of `%d`: the two ends walk towards the middle. */
  method ReverseInPlace(a: array<char>, lo: nat, hi: nat)
    requires lo <= hi <= a.Length
    modifies a
    ensures a[lo..hi] == Reversed(old(a[lo..hi]))
    ensures a[..lo] == old(a[..lo]) && a[hi..] == old(a[hi..])
  {
    ghost var was := a[..];
    var p, r := lo, hi;
    r := r - 1;
    while r > p
      invariant lo <= p && p - lo == hi - 1 - r && p <= r + 1
      invariant forall k :: lo <= k < p ==> a[k] == was[lo + hi - 1 - k]
      invariant forall k :: r < k < hi ==> a[k] == was[lo + hi - 1 - k]
      invariant forall k :: p <= k <= r ==> a[k] == was[k]
      invariant a[..lo] == was[..lo] && a[hi..] == was[hi..]
      decreases r - p
    {
      a[p], a[r] := a[r], a[p];
      p := p + 1;
      r := r - 1;
    }
    assert old(a[lo..hi]) == was[lo..hi];
    MirrorIsReversed(was, a[..], lo, hi);
  }

  /** A segment whose elements are mirrored is reversed. */
  lemma MirrorIsReversed(was: seq<char>, now: seq<char>, lo: nat, hi: nat)
    requires |was| == |now| && lo <= hi <= |was|
    requires forall k :: lo <= k < hi ==> now[k] == was[lo + hi - 1 - k]
    ensures now[lo..hi] == Reversed(was[lo..hi])
  {
    var seg := was[lo..hi];
    forall k | 0 <= k < hi - lo
      ensures |Reversed(seg)| == hi - lo && now[lo..hi][k] == Reversed(seg)[k]
    {
      ReversedAt(seg, k);
      assert now[lo..hi][k] == now[lo + k] == was[hi - 1 - k];
    }
    assert lo == hi ==> seg == [];
  }

  const OCTETS: nat := 4

  /** An IPv4 address as its four octets, in the order they have in memory. */
  type Address = s: seq<Byte> | |s| == 4 witness [0, 0, 0, 0]

  /** The first `k` octets of `a`, each followed by a dot. */
  ghost function Dotted(a: Address, k: nat): string
    requires k <= 4
  {
    if k == 0 then "" else Dotted(a, k - 1) + Render(a[k - 1]) + "."
  }

  /** The dotted-quad text of an address: the four octets without the final dot. */
  ghost function AddressText(a: Address): string {
    Dotted(a, 3) + Render(a[3])
  }

  lemma DottedText(a: Address)
    ensures Dotted(a, 3) == Render(a[0]) + "." + Render(a[1]) + "." + Render(a[2]) + "."
  {
    hide Render;
    assert Dotted(a, 1) == Dotted(a, 0) + Render(a[0]) + "." == Render(a[0]) + ".";
    assert Dotted(a, 2) == Dotted(a, 1) + Render(a[1]) + ".";
  }

  /** `%@`: prints every octet with a dot and steps back over the last one. */
  method FormatAddress(a: Address) returns (text: string)
    ensures text == AddressText(a)
    ensures text == Render(a[0]) + "." + Render(a[1]) + "." + Render(a[2]) + "." + Render(a[3])
  {
    DottedText(a);
    text := "";
    for r := 0 to 4
      invariant text == Dotted(a, r)
    {
      var t := FormatInt(a[r]);
      FormattedIsTextIff(a[r]);
      text := text + t + ".";
    }
    assert text == Dotted(a, 3) + Render(a[3]) + ".";
    text := text[..|text| - 1];
  }

  /** The value of `i` octets read so far, first octet most significant. */
  ghost function Packed(a: seq<Byte>): nat {
    if a == [] then 0 else Packed(a[..|a| - 1]) * 256 + a[|a| - 1]
  }

  /** htonl: the octets of a 32-bit number, most significant first. */
  function Htonl(ip: nat): Address
    requires ip < 0x1_0000_0000
  {
    [ip / 0x100_0000, ip / 0x1_0000 % 0x100, ip / 0x100 % 0x100, ip % 0x100]
  }

  lemma SplitBytes(x: nat, b: nat)
    requires b < 256
    ensures (x * 256 + b) / 256 == x && (x * 256 + b) % 256 == b
  {
  }

  lemma HtonlOfPacked(a: Address)
    ensures Packed(a) < 0x1_0000_0000 && Htonl(Packed(a)) == a
  {
    var b0: int, b1: int, b2: int, b3: int := a[0], a[1], a[2], a[3];
    assert a[..3][..2] == a[..2] && a[..2][..1] == a[..1] && a[..1][..0] == [];
    assert Packed(a[..1]) == b0;
    assert Packed(a[..2]) == b0 * 256 + b1;
    assert Packed(a[..3]) == (b0 * 256 + b1) * 256 + b2;
    assert Packed(a) == ((b0 * 256 + b1) * 256 + b2) * 256 + b3;
    var x1, x2 := b0 * 256 + b1, (b0 * 256 + b1) * 256 + b2;
    SplitBytes(b0, b1);
    SplitBytes(x1, b2);
    SplitBytes(x2, b3);
    var ip := Packed(a);
    assert ip / 0x100 == x2;
    assert ip / 0x1_0000 == x1 by { assert ip / 0x1_0000 == ip / 0x100 / 0x100; }
    assert ip / 0x100_0000 == b0 by { assert ip / 0x100_0000 == ip / 0x1_0000 / 0x100; }
  }

  /** The octets inet_aton still has to read at `p`: `n` of them, all but the last followed by a
      dot. */
  ghost function Octets(mem: string, p: nat, n: nat): Option<seq<Byte>>
    decreases n
  {
    if n == 0 then Some([])
    else
      var (v, q) := Getdec(mem, p);
      if v < 0 || v > 255 || (n != 1 && At(mem, q) != '.') then None
      else
        var rest := Octets(mem, if n != 1 then q + 1 else q, n - 1);
        if rest.None? then None else Some([v] + rest.value)
  }

  lemma {:induction false} PackedSnoc(a: seq<Byte>, v: Byte)
    ensures Packed(a + [v]) == Packed(a) * 256 + v
  {
    assert (a + [v])[..|a|] == a;
  }

  ghost function Prepend(done: seq<Byte>, rest: Option<seq<Byte>>): Option<seq<Byte>> {
    if rest.None? then None else Some(done + rest.value)
  }

  /** One round of inet_aton's loop moves one octet from the unread to the read part. */
  lemma OctetsUnfold(mem: string, p: nat, n: nat, done: seq<Byte>)
    requires 0 < n
    ensures var (v, q) := Getdec(mem, p);
            Prepend(done, Octets(mem, p, n)) ==
            if v < 0 || v > 255 || (n != 1 && At(mem, q) != '.') then None
            else Prepend(done + [v], Octets(mem, if n != 1 then q + 1 else q, n - 1))
  {
    var (v, q) := Getdec(mem, p);
    if 0 <= v <= 255 {
      var rest := Octets(mem, if n != 1 then q + 1 else q, n - 1);
      if rest.Some? {
        assert done + ([v] + rest.value) == (done + [v]) + rest.value;
      }
    }
  }

  /** inet_aton: accepts exactly four dotted octets and packs them in network order. */
  method InetAton(mem: string) returns (addr: Option<Address>)
    ensures addr == Octets(mem, 0, OCTETS)
  {
    hide Getdec;
    var ip := 0;
    var p := 0;
    ghost var done: seq<Byte> := [];
    ghost var all := Octets(mem, 0, OCTETS);
    assert all.Some? ==> [] + all.value == all.value;
    for i := 0 to OCTETS
      invariant |done| == i && ip == Packed(done)
      invariant all == Prepend(done, Octets(mem, p, OCTETS - i))
    {
      OctetsUnfold(mem, p, OCTETS - i, done);
      var val;
      val, p := GetdecAt(mem, p);
      if val < 0 || val > 255 {
        return None;
      }
      if i != 3 {
        var c := At(mem, p);
        p := p + 1;
        if c != '.' {
          return None;
        }
      }
      PackedSnoc(done, val);
      ip := ip * 256 + val;
      done := done + [val];
    }
    assert all == Some(done) by {
      assert Octets(mem, p, 0) == Some([]);
      assert done + [] == done;
    }
    assert ip < 0x1_0000_0000 && Htonl(ip) == done by {
      HtonlOfPacked(done);
    }
    addr := Some(Htonl(ip));
  }

  /** A number with the value `v` as an int stands from `p` to `q`. */
  ghost predicate DecimalAt(mem: string, p: nat, q: nat, v: int) {
    p < q <= |mem| && AllDigits(mem[p..q]) && (q < |mem| ==> !('0' <= mem[q] <= '9')) && v == Wrap32(Value(mem[p..q]))
  }

  /** The octets stand at `p` as numbers with dots between them. */
  ghost predicate DottedAt(mem: string, p: nat, a: seq<Byte>)
    decreases |a|
  {
    a == [] ||
    exists q: nat ::
      && DecimalAt(mem, p, q, a[0])
      && (|a| > 1 ==> q < |mem| && mem[q] == '.' && DottedAt(mem, q + 1, a[1..]))
  }

  lemma DecimalIff(mem: string, p: nat, q: nat, v: int)
    requires v >= 0
    ensures Getdec(mem, p) == (v, q) <==> DecimalAt(mem, p, q, v)
  {
    hide Value;
    if DecimalAt(mem, p, q, v) {
      DigitEndOfRun(mem, p, q);
      assert mem[p] == mem[p..q][0];
    }
  }

  /** Which texts inet_aton accepts, and as what. */
  lemma {:induction false} OctetsIff(mem: string, p: nat, a: seq<Byte>)
    ensures Octets(mem, p, |a|) == Some(a) <==> DottedAt(mem, p, a)
    decreases |a|
  {
    hide Getdec;
    hide DecimalAt;
    if a != [] {
      var (v, q) := Getdec(mem, p);
      HeadTail(a);
      OctetsIff(mem, q + 1, a[1..]);
      if Octets(mem, p, |a|) == Some(a) {
        DecimalIff(mem, p, q, a[0]);
      }
      if DottedAt(mem, p, a) {
        var q': nat :| && DecimalAt(mem, p, q', a[0])
                       && (|a| > 1 ==> q' < |mem| && mem[q'] == '.' && DottedAt(mem, q' + 1, a[1..]));
        DecimalIff(mem, p, q', a[0]);
      }
    }
  }

  /** inet_aton undoes `%@` on every address. */
  lemma AtonUndoesFormat(a: Address)
    ensures Octets(AddressText(a), 0, OCTETS) == Some(a)
  {
    var text := AddressText(a);
    AtonFrom(a, 3, text);
    AtonFrom(a, 2, text);
    AtonFrom(a, 1, text);
    AtonFrom(a, 0, text);
    assert a[0..] == a;
  }

  lemma AtonFrom(a: Address, k: nat, text: string)
    requires k < 4 && text == AddressText(a)
    requires k < 3 ==> Octets(text, |Dotted(a, k + 1)|, 3 - k) == Some(a[k + 1..])
    ensures Octets(text, |Dotted(a, k)|, 4 - k) == Some(a[k..])
  {
    hide Getdec;
    DottedPrefix(a, k);
    var p := |Dotted(a, k)|;
    var q := p + |Render(a[k])|;
    assert text[p..q] == Render(a[k]);
    assert k < 3 ==> text[q] == '.';
    GetdecUndoesRender(text, p, a[k]);
    var rest := if k < 3 then a[k + 1..] else [];
    assert Octets(text, if k < 3 then q + 1 else q, 3 - k) == Some(rest);
    assert a[k..] == [a[k]] + rest;
  }

  lemma DottedPrefix(a: Address, k: nat)
    requires k < 4
    ensures k < 3 ==> Dotted(a, k) + Render(a[k]) + "." <= AddressText(a)
    ensures k == 3 ==> Dotted(a, 3) + Render(a[3]) == AddressText(a)
    decreases 4 - k
  {
    if k < 2 {
      DottedPrefix(a, k + 1);
    }
  }
}
