/** A supply of different IPv4 addresses, for the examples that need many. */
module Hosts {
  import opened Net

  function Different(ips: seq<IP>): set<IP> {
    set a | a in ips
  }

  lemma DifferentAppend(ips: seq<IP>, ip: IP)
    requires ip !in ips
    ensures |Different(ips + [ip])| == |Different(ips)| + 1
  {
    assert Different(ips + [ip]) == Different(ips) + {ip};
  }

  // ---------------------------------------------------------------- any numbering

  function First(f: nat -> IP, n: nat): seq<IP> {
    seq(n, i requires 0 <= i < n => f(i))
  }

  /** As many addresses as numbers, when no two numbers share one. */
  lemma {:induction false} FirstDiffer(f: nat -> IP, n: nat)
    requires forall i: nat, j: nat :: i < n && j < n && f(i) == f(j) ==> i == j
    ensures |Different(First(f, n))| == n
  {
    if n == 0 {
      assert Different(First(f, 0)) == {};
    } else {
      FirstDiffer(f, n - 1);
      assert First(f, n) == First(f, n - 1) + [f(n - 1)];
      assert forall i :: 0 <= i < n - 1 ==> First(f, n - 1)[i] == f(i);
      DifferentAppend(First(f, n - 1), f(n - 1));
    }
  }

  // ---------------------------------------------------------------- one numbering

  /** A byte from 1 to 9. */
  function Digit(d: nat): byte
    requires d < 9
  {
    if d == 0 then 1 else if d == 1 then 2 else if d == 2 then 3 else if d == 3 then 4 else if d == 4 then 5
    else if d == 5 then 6 else if d == 6 then 7 else if d == 7 then 8 else 9
  }

  lemma DigitDiffers(a: nat, b: nat)
    requires a < 9 && b < 9 && Digit(a) == Digit(b)
    ensures a == b
  {
  }

  /** The last k digits of a number to the base 9, as bytes. */
  function Digits(i: nat, k: nat): (r: seq<byte>)
    ensures |r| == k && forall b :: b in r ==> b != 127
  {
    if k == 0 then [] else Digits(i / 9, k - 1) + [Digit(i % 9)]
  }

  function Pow9(k: nat): nat {
    if k == 0 then 1 else 9 * Pow9(k - 1)
  }

  lemma {:induction false} DigitsDiffer(i: nat, j: nat, k: nat)
    requires i < Pow9(k) && j < Pow9(k) && Digits(i, k) == Digits(j, k)
    ensures i == j
  {
    if k > 0 {
      var a, b := Digits(i, k), Digits(j, k);
      assert a[..k - 1] == Digits(i / 9, k - 1) && b[..k - 1] == Digits(j / 9, k - 1);
      assert a[k - 1] == Digit(i % 9) && b[k - 1] == Digit(j % 9);
      DigitsDiffer(i / 9, j / 9, k - 1);
      DigitDiffers(i % 9, j % 9);
    }
  }

  const WIDTH: nat := 4

  /** 1.1.1.1, 1.1.1.2 and so on up to 9.9.9.9. */
  const HOST: nat -> IP := i => Digits(i, WIDTH)

  /** Lists of any size up to 6561, all of their addresses different. */
  lemma HostsDiffer(n: nat)
    requires n <= 6561
    ensures |Different(First(HOST, n))| == n
    ensures forall a :: a in First(HOST, n) ==> |a| == 4 && !IsLoopback(a)
  {
    assert Pow9(2) == 81;
    assert Pow9(WIDTH) == 6561;
    forall i: nat, j: nat | i < n && j < n && HOST(i) == HOST(j) ensures i == j {
      DigitsDiffer(i, j, WIDTH);
    }
    FirstDiffer(HOST, n);
    forall a | a in First(HOST, n) ensures |a| == 4 && !IsLoopback(a) {
      assert a[0] in a;
    }
  }
}
