/** Bounds of the logarithms of the radixes to the base 2, found by taking eighth powers of 31-bit mantissas. */
module DtoaBounds {
  import opened DtoaRounding
  import opened DtoaDivision
  import opened DtoaScaling

  const TWO30: nat := 0x4000_0000
  const TWO210: nat := TWO30 * TWO30 * TWO30 * TWO30 * TWO30 * TWO30 * TWO30

  /** b^n lies between lo and hi units of 2^(a - 30). */
  ghost predicate Near(b: nat, n: nat, lo: nat, hi: nat, a: nat) {
    lo * Pow(2, a) <= Pow(b, n) * TWO30 <= hi * Pow(2, a)
  }

  const FINE: nat := 0x100_0000

  /** log2(b) lies between lo / 2^24 and hi / 2^24. */
  ghost predicate Bits(b: nat, lo: nat, hi: nat) {
    Pow(2, lo) <= Pow(b, FINE) <= Pow(2, hi)
  }

  // ----- one step -----

  function TwoTo(j: nat): nat {
    if j == 0 then 1 else if j == 1 then 2 else if j == 2 then 4 else if j == 3 then 8
    else if j == 4 then 16 else if j == 5 then 32 else if j == 6 then 64 else 128
  }

  lemma TwoToIs(j: nat)
    requires j <= 7
    ensures TwoTo(j) == Pow(2, j)
  {
  }

  lemma PowEight(x: nat)
    ensures Pow(x, 8) == x * x * x * x * x * x * x * x
  {
    hide Pow;
    PowStart(x);
    PowSquare(x, 1);
    PowSquare(x, 2);
    PowSquare(x, 4);
    Squares(x);
  }

  lemma Squares(x: nat)
    ensures x * x * (x * x) * (x * x * (x * x)) == x * x * x * x * x * x * x * x
  {
  }

  /** (x * 2^a)^8 */
  lemma EighthPower(x: nat, b: nat, n: nat)
    ensures Pow(x * Pow(b, n), 8) == Pow(x, 8) * Pow(b, 8 * n)
  {
    hide Pow;
    PowProduct(x, Pow(b, n), 8);
    PowPow(b, n, 8);
    assert n * 8 == 8 * n;
  }

  lemma ThirtyEight()
    ensures Pow(TWO30, 8) == TWO210 * TWO30 && TWO210 > 0
  {
    hide Pow;
    PowEight(TWO30);
  }

  lemma Cancel(x: int, y: int, t: nat)
    requires x * t <= y * t && t > 0
    ensures x <= y
  {
    if x > y {
      MulOrder(1, x - y, t);
    }
  }

  lemma CutDown(lo': nat, w: nat, t: nat, e: nat, p: nat, q: nat, u: nat)
    requires lo' * w * t <= e && e * p <= t * u * q && t > 0
    ensures lo' * (w * p) <= q * u
  {
    MulOrder(lo' * w * t, e, p);
    assert lo' * w * t * p == lo' * (w * p) * t;
    assert t * u * q == q * u * t;
    Cancel(lo' * (w * p), q * u, t);
  }

  lemma CutUp(hi': nat, w: nat, t: nat, e: nat, p: nat, q: nat, u: nat)
    requires e <= hi' * w * t && t * u * q <= e * p && t > 0
    ensures q * u <= hi' * (w * p)
  {
    MulOrder(e, hi' * w * t, p);
    assert hi' * w * t * p == hi' * (w * p) * t;
    assert t * u * q == q * u * t;
    Cancel(q * u, hi' * (w * p), t);
  }

  lemma Raised(b: nat, n: nat, lo: nat, hi: nat, a: nat)
    requires Near(b, n, lo, hi, a)
    ensures Pow(lo, 8) * Pow(2, 8 * a) <= Pow(TWO30, 8) * Pow(b, 8 * n) <= Pow(hi, 8) * Pow(2, 8 * a)
  {
    hide Pow, TWO210, TWO30;
    var x := TWO30 * Pow(b, n);
    assert lo * Pow(2, a) <= x <= hi * Pow(2, a);
    hide Near;
    PowBase(lo * Pow(2, a), x, 8);
    PowBase(x, hi * Pow(2, a), 8);
    EighthPower(lo, 2, a);
    EighthPower(hi, 2, a);
    EighthPower(TWO30, b, n);
  }

  /** Bounds of b^(8n) from bounds of b^n. */
  lemma Eighth(b: nat, n: nat, lo: nat, hi: nat, a: nat, lo': nat, hi': nat, j: nat)
    requires Near(b, n, lo, hi, a) && j <= 7
    requires lo' * TwoTo(j) * TWO210 <= lo * lo * lo * lo * lo * lo * lo * lo
    requires hi * hi * hi * hi * hi * hi * hi * hi <= hi' * TwoTo(j) * TWO210
    ensures Near(b, 8 * n, lo', hi', 8 * a + j)
  {
    hide Pow, TwoTo, TWO210, TWO30;
    PowEight(lo);
    PowEight(hi);
    Lowered(b, n, lo, hi, a, lo', hi', j);
  }

  lemma Lowered(b: nat, n: nat, lo: nat, hi: nat, a: nat, lo': nat, hi': nat, j: nat)
    requires Near(b, n, lo, hi, a) && j <= 7
    requires lo' * TwoTo(j) * TWO210 <= Pow(lo, 8) && Pow(hi, 8) <= hi' * TwoTo(j) * TWO210
    ensures Near(b, 8 * n, lo', hi', 8 * a + j)
  {
    hide Pow, TwoTo, TWO210, TWO30;
    Raised(b, n, lo, hi, a);
    ThirtyEight();
    CutDown(lo', TwoTo(j), TWO210, Pow(lo, 8), Pow(2, 8 * a), Pow(b, 8 * n), TWO30);
    CutUp(hi', TwoTo(j), TWO210, Pow(hi, 8), Pow(2, 8 * a), Pow(b, 8 * n), TWO30);
    TwoToIs(j);
    PowPlus(2, j, 8 * a);
  }

  lemma Start(b: nat, m: nat, a: nat, w: nat)
    requires a <= 7 && w == TwoTo(a) && m * w == b * TWO30
    ensures Near(b, 1, m, m, a)
  {
    hide Pow;
    TwoToIs(a);
    PowStart(b);
  }

  lemma Finish(b: nat, n: nat, lo: nat, hi: nat, a: nat)
    requires Near(b, n, lo, hi, a) && n == FINE && TWO30 <= lo && hi <= 2 * TWO30
    ensures Bits(b, a, a + 1)
  {
    hide Pow;
    var p, q := Pow(2, a), Pow(b, FINE);
    MulOrder(TWO30, lo, p);
    MulOrder(hi, 2 * TWO30, p);
    PowUp(2, a);
  }

  lemma Product(b: nat, c: nat, lo: nat, hi: nat, lo': nat, hi': nat)
    requires Bits(b, lo, hi) && Bits(c, lo', hi')
    ensures Bits(b * c, lo + lo', hi + hi')
  {
    hide Pow;
    PowProduct(b, c, FINE);
    PowPlus(2, lo, lo');
    PowPlus(2, hi, hi');
    MulBoth(Pow(2, lo), Pow(b, FINE), Pow(2, lo'), Pow(c, FINE));
    MulBoth(Pow(b, FINE), Pow(2, hi), Pow(c, FINE), Pow(2, hi'));
  }

  lemma MulBoth(x: nat, y: nat, u: nat, v: nat)
    requires x <= y && u <= v
    ensures x * u <= y * v
  {
    MulOrder(x, y, u);
    MulOrder(u, v, y);
  }

  lemma Two()
    ensures Bits(2, FINE, FINE)
  {
    hide Pow;
  }

  // ----- the primes -----

  lemma Three()
    ensures Bits(3, 26591258, 26591259)
  {
    hide Pow, Near, Bits;
    Start(3, 1610612736, 1, 2);
    Eighth(3, 1, 1610612736, 1610612736, 1, 1719926784, 1719926784, 4);
    Eighth(3, 8, 1719926784, 1719926784, 12, 1454221663, 1454221664, 5);
    Eighth(3, 64, 1454221663, 1454221664, 101, 1519342906, 1519342916, 3);
    Eighth(3, 512, 1519342906, 1519342916, 811, 1078517874, 1078517932, 4);
    Eighth(3, 4096, 1078517874, 1078517932, 6492, 1112550379, 1112550859, 0);
    Eighth(3, 32768, 1112550379, 1112550859, 51936, 1426456061, 1426460985, 0);
    Eighth(3, 262144, 1426456061, 1426460985, 415488, 1302201264, 1302237227, 3);
    Eighth(3, 2097152, 1302201264, 1302237227, 3323907, 1256220336, 1256497909, 2);
    Finish(3, 16777216, 1256220336, 1256497909, 26591258);
  }

  lemma Five()
    ensures Bits(5, 38955489, 38955490)
  {
    hide Pow, Near, Bits;
    Start(5, 1342177280, 2, 4);
    Eighth(5, 1, 1342177280, 1342177280, 2, 1600000000, 1600000000, 2);
    Eighth(5, 8, 1600000000, 1600000000, 18, 1631326116, 1631326117, 4);
    Eighth(5, 64, 1631326116, 1631326117, 148, 1905053773, 1905053784, 4);
    Eighth(5, 512, 1905053773, 1905053784, 1188, 1647323321, 1647323398, 6);
    Eighth(5, 4096, 1647323321, 1647323398, 9510, 2059736674, 2059737445, 4);
    Eighth(5, 32768, 2059736674, 2059737445, 76084, 1538099939, 1538104546, 7);
    Eighth(5, 262144, 1538099939, 1538104546, 608679, 1189754530, 1189783041, 4);
    Eighth(5, 2097152, 1189754530, 1189783041, 4869436, 1219915786, 1220149677, 1);
    Finish(5, 16777216, 1219915786, 1220149677, 38955489);
  }

  lemma Seven()
    ensures Bits(7, 47099599, 47099600)
  {
    hide Pow, Near, Bits;
    Start(7, 1879048192, 2, 4);
    Eighth(7, 1, 1879048192, 1879048192, 2, 1475789056, 1475789056, 6);
    Eighth(7, 8, 1475789056, 1475789056, 22, 1709248498, 1709248499, 3);
    Eighth(7, 64, 1709248498, 1709248499, 179, 1383542765, 1383542772, 5);
    Eighth(7, 512, 1383542765, 1383542772, 1437, 2039771973, 2039772057, 2);
    Eighth(7, 4096, 2039771973, 2039772057, 11498, 1422800149, 1422800619, 7);
    Eighth(7, 32768, 1422800149, 1422800619, 91991, 1275739902, 1275743274, 3);
    Eighth(7, 262144, 1275739902, 1275743274, 735931, 2131905893, 2131950974, 1);
    Eighth(7, 2097152, 2131905893, 2131950974, 5887449, 2025980129, 2026322884, 7);
    Finish(7, 16777216, 2025980129, 2026322884, 47099599);
  }

  lemma Eleven()
    ensures Bits(11, 58039631, 58039632)
  {
    hide Pow, Near, Bits;
    Start(11, 1476395008, 3, 8);
    Eighth(11, 1, 1476395008, 1476395008, 3, 1714871048, 1714871048, 3);
    Eighth(11, 8, 1714871048, 1714871048, 27, 1420373883, 1420373884, 5);
    Eighth(11, 64, 1420373883, 1420373884, 221, 1258439521, 1258439529, 3);
    Eighth(11, 512, 1258439521, 1258439529, 1771, 1911303719, 1911303817, 1);
    Eighth(11, 4096, 1911303719, 1911303817, 14169, 1691058280, 1691058975, 6);
    Eighth(11, 32768, 1691058280, 1691058975, 113358, 1270046242, 1270050419, 5);
    Eighth(11, 262144, 1270046242, 1270050419, 906869, 2056966340, 2057020462, 1);
    Eighth(11, 2097152, 2056966340, 2057020462, 7254953, 1521627753, 1521948075, 7);
    Finish(11, 16777216, 1521627753, 1521948075, 58039631);
  }

  lemma Thirteen()
    ensures Bits(13, 62083076, 62083077)
  {
    hide Pow, Near, Bits;
    Start(13, 1744830464, 3, 8);
    Eighth(13, 1, 1744830464, 1744830464, 3, 1631461442, 1631461442, 5);
    Eighth(13, 8, 1631461442, 1631461442, 29, 1906318404, 1906318405, 4);
    Eighth(13, 64, 1906318404, 1906318405, 236, 1656092010, 1656092017, 6);
    Eighth(13, 512, 1656092010, 1656092017, 1894, 1074549996, 1074550034, 5);
    Eighth(13, 4096, 1074549996, 1074550034, 15157, 1080224257, 1080224564, 0);
    Eighth(13, 32768, 1080224257, 1080224564, 121256, 1126710427, 1126712989, 0);
    Eighth(13, 262144, 1126710427, 1126712989, 970048, 1578335839, 1578364552, 0);
    Eighth(13, 2097152, 1578335839, 1578364552, 7760384, 1462770767, 1462983666, 4);
    Finish(13, 16777216, 1462770767, 1462983666, 62083076);
  }

  lemma Seventeen()
    ensures Bits(17, 68576246, 68576247)
  {
    hide Pow, Near, Bits;
    Start(17, 1140850688, 4, 16);
    Eighth(17, 1, 1140850688, 1140850688, 4, 1743939360, 1743939361, 0);
    Eighth(17, 8, 1743939360, 1743939361, 32, 1624807702, 1624807711, 5);
    Eighth(17, 64, 1624807702, 1624807711, 261, 1845001316, 1845001399, 4);
    Eighth(17, 512, 1845001316, 1845001399, 2092, 1274953597, 1274954057, 6);
    Eighth(17, 4096, 1274953597, 1274954057, 16742, 2121416504, 2121422628, 1);
    Eighth(17, 32768, 2121416504, 2121422628, 133937, 1947594263, 1947639242, 7);
    Eighth(17, 262144, 1947594263, 1947639242, 1071503, 1965661942, 1966025142, 6);
    Eighth(17, 2097152, 1965661942, 1966025142, 8572030, 2116369870, 2119500268, 6);
    Finish(17, 16777216, 2116369870, 2119500268, 68576246);
  }

  lemma Nineteen()
    ensures Bits(19, 71268397, 71268398)
  {
    hide Pow, Near, Bits;
    Start(19, 1275068416, 4, 16);
    Eighth(19, 1, 1275068416, 1275068416, 4, 2122945380, 2122945381, 1);
    Eighth(19, 8, 2122945380, 2122945381, 33, 1958851465, 1958851473, 7);
    Eighth(19, 64, 1958851465, 1958851473, 271, 2058415210, 2058415279, 6);
    Eighth(19, 512, 2058415210, 2058415279, 2174, 1530223260, 1530223671, 7);
    Eighth(19, 4096, 1530223260, 1530223671, 17399, 1141876988, 1141879442, 4);
    Eighth(19, 32768, 1141876988, 1141879442, 139196, 1756529617, 1756559818, 0);
    Eighth(19, 262144, 1756529617, 1756559818, 1113568, 1721054991, 1721291735, 5);
    Eighth(19, 2097152, 1721054991, 1721291735, 8908549, 1461870522, 1463480028, 5);
    Finish(19, 16777216, 1461870522, 1463480028, 71268397);
  }

  lemma TwentyThree()
    ensures Bits(23, 75892776, 75892777)
  {
    hide Pow, Near, Bits;
    Start(23, 1543503872, 4, 16);
    Eighth(23, 1, 1543503872, 1543503872, 4, 1223609145, 1223609146, 4);
    Eighth(23, 8, 1223609145, 1223609146, 36, 1526907147, 1526907158, 1);
    Eighth(23, 64, 1526907147, 1526907158, 289, 1122230198, 1122230264, 4);
    Eighth(23, 512, 1122230198, 1122230264, 2316, 1528820571, 1528821291, 0);
    Eighth(23, 4096, 1528820571, 1528821291, 18528, 1133530133, 1133534404, 4);
    Eighth(23, 32768, 1133530133, 1133534404, 148228, 1656400936, 1656450867, 0);
    Eighth(23, 262144, 1656400936, 1656450867, 1185824, 1076154609, 1076414156, 5);
    Eighth(23, 2097152, 1076154609, 1076414156, 9486597, 1093196596, 1095307636, 0);
    Finish(23, 16777216, 1093196596, 1095307636, 75892776);
  }

  lemma TwentyNine()
    ensures Bits(29, 81503396, 81503397)
  {
    hide Pow, Near, Bits;
    Start(29, 1946157056, 4, 16);
    Eighth(29, 1, 1946157056, 1946157056, 4, 1954087550, 1954087551, 6);
    Eighth(29, 8, 1954087550, 1954087551, 38, 2018706021, 2018706030, 6);
    Eighth(29, 64, 2018706021, 2018706030, 310, 1309409741, 1309409789, 7);
    Eighth(29, 512, 1309409741, 1309409789, 2487, 1312941749, 1312942135, 2);
    Eighth(29, 4096, 1312941749, 1312942135, 19898, 1341542962, 1341546118, 2);
    Eighth(29, 32768, 1341542962, 1341546118, 159186, 1593960668, 1593990668, 2);
    Eighth(29, 262144, 1593960668, 1593990668, 1273490, 1582711410, 1582949733, 4);
    Eighth(29, 2097152, 1582711410, 1582949733, 10187924, 1495528845, 1497331357, 4);
    Finish(29, 16777216, 1495528845, 1497331357, 81503396);
  }

  lemma ThirtyOne()
    ensures Bits(31, 83117621, 83117622)
  {
    hide Pow, Near, Bits;
    Start(31, 2080374784, 4, 16);
    Eighth(31, 1, 2080374784, 2080374784, 4, 1665802807, 1665802808, 7);
    Eighth(31, 8, 1665802807, 1665802808, 39, 1126003262, 1126003268, 5);
    Eighth(31, 64, 1126003262, 1126003268, 317, 1570428252, 1570428320, 0);
    Eighth(31, 512, 1570428252, 1570428320, 2536, 1405159826, 1405160314, 4);
    Eighth(31, 4096, 1405159826, 1405160314, 20292, 1154560568, 1154563776, 3);
    Eighth(31, 32768, 1154560568, 1154563776, 162339, 1918821947, 1918864601, 0);
    Eighth(31, 262144, 1918821947, 1918864601, 1298712, 1745011743, 1745322091, 6);
    Eighth(31, 2097152, 1745011743, 1745322091, 10389702, 1632817939, 1635142542, 5);
    Finish(31, 16777216, 1632817939, 1635142542, 83117621);
  }

  // ----- all radixes -----

  /** Bounds of 2^24 * log2(radix), for the radixes that are not powers of two. */
  const LOG_BOUNDS: seq<(nat, nat)> :=
    [(0, 0), (26591258, 26591259), (0, 0), (38955489, 38955490), (43368474, 43368475), (47099599, 47099600),
     (0, 0), (53182516, 53182518), (55732705, 55732706), (58039631, 58039632), (60145690, 60145691), (62083076, 62083077),
     (63876815, 63876816), (65546747, 65546749), (0, 0), (68576246, 68576247), (69959732, 69959734), (71268397, 71268398),
     (72509921, 72509922), (73690857, 73690859), (74816847, 74816848), (75892776, 75892777), (76922906, 76922907), (77910978, 77910980),
     (78860292, 78860293), (79773774, 79773777), (80654031, 80654032), (81503396, 81503397), (82323963, 82323965), (83117621, 83117622),
     (0, 0), (84630889, 84630891), (85353462, 85353463), (86055088, 86055090), (86736948, 86736950)]

  /** The bounds hold. */
  lemma LogBounds(radix: nat)
    requires 2 <= radix <= 36 && LOG_BOUNDS[radix - 2] != (0, 0)
    ensures Bits(radix, LOG_BOUNDS[radix - 2].0, LOG_BOUNDS[radix - 2].1)
  {
    hide Pow, Near, Bits;
    Two();
    Three();
    Five();
    Seven();
    Eleven();
    Thirteen();
    Seventeen();
    Nineteen();
    TwentyThree();
    TwentyNine();
    ThirtyOne();
    Product(2, 3, 16777216, 16777216, 26591258, 26591259);
    Product(3, 3, 26591258, 26591259, 26591258, 26591259);
    Product(2, 5, 16777216, 16777216, 38955489, 38955490);
    Product(2, 6, 16777216, 16777216, 43368474, 43368475);
    Product(2, 7, 16777216, 16777216, 47099599, 47099600);
    Product(3, 5, 26591258, 26591259, 38955489, 38955490);
    Product(2, 9, 16777216, 16777216, 53182516, 53182518);
    Product(2, 10, 16777216, 16777216, 55732705, 55732706);
    Product(3, 7, 26591258, 26591259, 47099599, 47099600);
    Product(2, 11, 16777216, 16777216, 58039631, 58039632);
    Product(2, 12, 16777216, 16777216, 60145690, 60145691);
    Product(5, 5, 38955489, 38955490, 38955489, 38955490);
    Product(2, 13, 16777216, 16777216, 62083076, 62083077);
    Product(3, 9, 26591258, 26591259, 53182516, 53182518);
    Product(2, 14, 16777216, 16777216, 63876815, 63876816);
    Product(2, 15, 16777216, 16777216, 65546747, 65546749);
    Product(3, 11, 26591258, 26591259, 58039631, 58039632);
    Product(2, 17, 16777216, 16777216, 68576246, 68576247);
    Product(5, 7, 38955489, 38955490, 47099599, 47099600);
    Product(2, 18, 16777216, 16777216, 69959732, 69959734);
  }
}
