/** PyTorch's device strings: printing a device and parsing one. */
module TorchDeviceString {
  import opened CppText

  datatype Type = CPU | CUDA | ROCm | OneAPI | Vulkan | MPS

  datatype Device = Device(kind: Type, index: int)

  const INT_MAX := 0x7fff_ffff

  predicate IsInt32(x: int) { -INT_MAX - 1 <= x <= INT_MAX }

  /** A parsed device, the documented exception, or the standard library's own. */
  datatype Parsed = Ok(device: Device) | Unsupported | OutOfRange

  datatype Printed = Text(text: string) | NotPrintable

  predicate AllDigits(s: string) { forall k | 0 <= k < |s| :: IsDigit(s[k]) }

  function Digit(n: nat): (c: char)
    requires n < 10
    ensures IsDigit(c) && c as int == '0' as int + n
  {
    '0' + n as char
  }

  function Decimal(n: nat): (s: string)
    ensures s != "" && AllDigits(s)
  {
    if n < 10 then [Digit(n)] else Decimal(n / 10) + [Digit(n % 10)]
  }

  function ToString(n: int): string {
    if n < 0 then "-" + Decimal(-n) else Decimal(n)
  }

  /** The number that decimal digits stand for. */
  function Number(s: string): nat
    requires AllDigits(s)
  {
    if s == "" then 0 else Number(s[..|s| - 1]) * 10 + (s[|s| - 1] as int - '0' as int)
  }

  function Print(d: Device): Printed {
    match d.kind
    case CPU => Text("cpu")
    case CUDA => Text("cuda:" + ToString(d.index))
    case _ => NotPrintable
  }

  function Parse(s: string): Parsed {
    if s == "cpu" then Ok(Device(CPU, 0))
    else if |s| >= 5 && s[..5] == "cuda:" then
      if s[5..] == "" || !AllDigits(s[5..]) then Unsupported
      else if Number(s[5..]) > INT_MAX then OutOfRange
      else Ok(Device(CUDA, Number(s[5..])))
    else if s == "cuda" then Ok(Device(CUDA, 0))
    else Unsupported
  }

  lemma {:induction false} NumberOfDecimal(n: nat)
    ensures Number(Decimal(n)) == n
  {
    if n >= 10 {
      NumberOfDecimal(n / 10);
      var s := Decimal(n);
      assert s[..|s| - 1] == Decimal(n / 10);
    }
  }

  /** Digits as they are printed: without a leading zero. */
  predicate Canonical(s: string) {
    s != "" && AllDigits(s) && (|s| > 1 ==> s[0] != '0')
  }

  lemma {:induction false} NumberIsPositive(s: string)
    requires Canonical(s) && s != "0"
    ensures Number(s) > 0
    decreases |s|
  {
    if |s| > 1 {
      var t := s[..|s| - 1];
      assert t[0] == s[0];
      NumberIsPositive(t);
    } else {
      assert s == [s[0]] && s[..0] == "";
    }
  }

  /** Splitting off the last digit. */
  lemma LastDigit(s: string)
    requires s != "" && AllDigits(s)
    ensures var t, c := s[..|s| - 1], s[|s| - 1];
            s == t + [c] && Number(s) / 10 == Number(t) && Digit(Number(s) % 10) == c
  {
    var t, d := s[..|s| - 1], s[|s| - 1] as int - '0' as int;
    LastDigitOf(Number(t), d);
    assert Digit(d) == s[|s| - 1];
  }

  lemma LastDigitOf(n: nat, d: nat)
    requires d < 10
    ensures (n * 10 + d) / 10 == n && (n * 10 + d) % 10 == d
  {
  }

  lemma {:induction false} DecimalOfNumber(s: string)
    requires s != "" && AllDigits(s)
    ensures Decimal(Number(s)) == s <==> Canonical(s)
    decreases |s|
  {
    DecimalIsCanonical(Number(s));
    if Canonical(s) {
      CanonicalIsPrinted(s);
    }
  }

  lemma {:induction false} CanonicalIsPrinted(s: string)
    requires Canonical(s)
    ensures Decimal(Number(s)) == s
    decreases |s|
  {
    var n, t := Number(s), s[..|s| - 1];
    LastDigit(s);
    hide Digit;
    if t == "" {
      assert n < 10 by { assert Number(t) == 0; }
      assert s == [s[0]];
    } else {
      assert t[0] == s[0];
      CanonicalIsPrinted(t);
      NumberIsPositive(t);
      TenOrMore(n, Number(t));
    }
  }

  lemma TenOrMore(n: nat, m: nat)
    requires m > 0 && n / 10 == m
    ensures n >= 10
  {
  }

  lemma {:induction false} DecimalIsCanonical(n: nat)
    ensures Canonical(Decimal(n)) && (n > 0 ==> Decimal(n)[0] != '0')
  {
    if n >= 10 {
      DecimalIsCanonical(n / 10);
    }
  }

  lemma CudaPrefix(rest: string)
    ensures var s := "cuda:" + rest; |s| >= 5 && s[..5] == "cuda:" && s[5..] == rest && s != "cpu" && s != "cuda"
  {
  }

  /** Parsing what was printed gives the device back exactly if it is the CPU with index 0 or a CUDA device
      whose index is not negative; ROCm and the others have no string. */
  lemma RoundTrip(d: Device)
    requires IsInt32(d.index)
    ensures Print(d).Text? && Parse(Print(d).text) == Ok(d)
            <==> (d.kind == CPU && d.index == 0) || (d.kind == CUDA && d.index >= 0)
    ensures d.kind == CUDA && d.index < 0 ==> Print(d) == Text("cuda:-" + Decimal(-d.index))
  {
    hide Decimal, Number;
    if d.kind == CUDA {
      var digits := ToString(d.index);
      CudaPrefix(digits);
      if d.index >= 0 {
        NumberOfDecimal(d.index);
      } else {
        assert digits[0] == '-' && !IsDigit(digits[0]);
        assert "cuda:" + ("-" + Decimal(-d.index)) == "cuda:-" + Decimal(-d.index);
      }
    }
  }

  /** Which strings are accepted, and the devices they name. Anything else raises the documented exception, except an
      index above the largest int, which raises the one of the number parser. */
  lemma AcceptedStrings(s: string)
    ensures Parse(s).Ok? <==>
            || s == "cpu" || s == "cuda"
            || exists digits :: digits != "" && AllDigits(digits) && Number(digits) <= 2147483647 && s == "cuda:" + digits
    ensures Parse("cpu") == Ok(Device(CPU, 0)) && Parse("cuda") == Ok(Device(CUDA, 0))
    ensures forall digits | s == "cuda:" + digits && Parse(s).Ok? :: Parse(s) == Ok(Device(CUDA, Number(digits)))
    ensures Parse(s) == OutOfRange <==>
            exists digits :: digits != "" && AllDigits(digits) && Number(digits) > 2147483647 && s == "cuda:" + digits
  {
    hide Number, AllDigits;
    if |s| >= 5 && s[..5] == "cuda:" {
      assert s == "cuda:" + s[5..];
    }
    forall digits | s == "cuda:" + digits ensures |s| >= 5 && s[..5] == "cuda:" && s[5..] == digits && s != "cpu" {
      CudaPrefix(digits);
    }
  }

  /** Printing what was parsed gives the string back exactly if the string is canonical: the bare name `cuda`
      and leading zeros are normalised. */
  lemma PrintOfParse(s: string)
    requires Parse(s).Ok?
    ensures Print(Parse(s).device) == Text(s) <==> s == "cpu" || (|s| >= 5 && Canonical(s[5..]))
  {
    hide Decimal, Number, Canonical;
    if s == "cpu" {
    } else if s == "cuda" {
      CudaPrefix(ToString(0));
    } else {
      var digits := s[5..];
      assert s == "cuda:" + digits;
      DecimalOfNumber(digits);
      var printed := ToString(Number(digits));
      CudaPrefix(printed);
      CudaPrefix(digits);
    }
  }
}
