/** Where a run of rand is after long jumps. Powers of 16807 modulo 2^31 - 1 are
    put together from smaller ones; every number below is one of them. */
module RandTable {

  import opened CInt
  import opened Rand

  /** The number of seeds. */
  const N := 0x7fff_fffe

  /** `n` steps multiply by `x`. */
  ghost predicate At(n: nat, x: int) {
    0 <= x < M && forall s {:trigger Nth(s, n)} :: 0 <= s < M ==> Nth(s, n) == x * s % M
  }

  predicate Times(x: int, y: int, z: int) {
    z == x * y % M
  }

  lemma {:induction false} Onwards(s: int, i: nat, j: nat)
    ensures Nth(s, i + j) == Nth(Nth(s, i), j)
  {
    if j == 0 {
    } else {
      Onwards(s, i, j - 1);
    }
  }

  lemma ProductMod(a: int, x: int)
    ensures a % M * x % M == a * x % M
  {
    var k := a / M;
    var r := a - k * M;
    assert a * x == r * x + (k * x) * M;
    ModUnique(r * x % M, a * x, r * x / M + k * x);
  }

  /** Two jumps, one after the other. */
  lemma Sum(m: nat, n: nat, x: int, y: int, z: int)
    requires At(m, x) && At(n, y) && Times(x, y, z)
    ensures At(m + n, z)
  {
    hide Nth;
    var k := m + n;
    forall s | 0 <= s < M ensures Nth(s, k) == z * s % M {
      Onwards(s, m, n);
      Both(s, m, n, x, y, z);
    }
  }

  lemma Both(s: int, m: nat, n: nat, x: int, y: int, z: int)
    requires 0 <= s < M && At(m, x) && At(n, y) && Times(x, y, z)
    ensures Nth(Nth(s, m), n) == z * s % M
  {
    hide Nth;
    var u := x * s % M;
    assert Nth(s, m) == u && Nth(u, n) == y * u % M;
    ProductMod(x * s, y);
    ProductMod(x * y, s);
    assert u * y == y * u && x * s * y == x * y * s;
  }

  lemma AtOne()
    ensures At(1, A)
  {
    assert forall s :: Nth(s, 0) == s;
  }

  // ---- the same jump several times ----

  lemma By2(m: nat, x: int, y: int)
    requires At(m, x)
    requires Times(x, x, y)
    ensures At(2 * m, y)
  {
    hide At, Times;
    Sum(m, m, x, x, y);
  }

  lemma By3(m: nat, x: int, x2: int, y: int)
    requires At(m, x)
    requires Times(x, x, x2) && Times(x2, x, y)
    ensures At(3 * m, y)
  {
    hide At, Times;
    Sum(m, m, x, x, x2);
    Sum(2 * m, m, x2, x, y);
  }

  lemma By7(m: nat, x: int, x2: int, x3: int, x6: int, y: int)
    requires At(m, x)
    requires Times(x, x, x2) && Times(x2, x, x3) && Times(x3, x3, x6)
    requires Times(x6, x, y)
    ensures At(7 * m, y)
  {
    hide At, Times;
    Sum(m, m, x, x, x2);
    Sum(2 * m, m, x2, x, x3);
    Sum(3 * m, 3 * m, x3, x3, x6);
    Sum(6 * m, m, x6, x, y);
  }

  lemma By11(m: nat, x: int, x2: int, x4: int, x5: int, x10: int, y: int)
    requires At(m, x)
    requires Times(x, x, x2) && Times(x2, x2, x4) && Times(x4, x, x5)
    requires Times(x5, x5, x10) && Times(x10, x, y)
    ensures At(11 * m, y)
  {
    hide At, Times;
    Sum(m, m, x, x, x2);
    Sum(2 * m, 2 * m, x2, x2, x4);
    Sum(4 * m, m, x4, x, x5);
    Sum(5 * m, 5 * m, x5, x5, x10);
    Sum(10 * m, m, x10, x, y);
  }

  lemma By31(m: nat, x: int, x2: int, x3: int, x6: int, x7: int, x14: int, x15: int, x30: int, y: int)
    requires At(m, x)
    requires Times(x, x, x2) && Times(x2, x, x3) && Times(x3, x3, x6)
    requires Times(x6, x, x7) && Times(x7, x7, x14) && Times(x14, x, x15)
    requires Times(x15, x15, x30) && Times(x30, x, y)
    ensures At(31 * m, y)
  {
    hide At, Times;
    Sum(m, m, x, x, x2);
    Sum(2 * m, m, x2, x, x3);
    Sum(3 * m, 3 * m, x3, x3, x6);
    Sum(6 * m, m, x6, x, x7);
    Sum(7 * m, 7 * m, x7, x7, x14);
    Sum(14 * m, m, x14, x, x15);
    Sum(15 * m, 15 * m, x15, x15, x30);
    Sum(30 * m, m, x30, x, y);
  }

  lemma By151(m: nat, x: int, x2: int, x4: int, x8: int, x9: int, x18: int, x36: int, x37: int, x74: int, x75:
              int, x150: int, y: int)
    requires At(m, x)
    requires Times(x, x, x2) && Times(x2, x2, x4) && Times(x4, x4, x8)
    requires Times(x8, x, x9) && Times(x9, x9, x18) && Times(x18, x18, x36)
    requires Times(x36, x, x37) && Times(x37, x37, x74) && Times(x74, x, x75)
    requires Times(x75, x75, x150) && Times(x150, x, y)
    ensures At(151 * m, y)
  {
    hide At, Times;
    Sum(m, m, x, x, x2);
    Sum(2 * m, 2 * m, x2, x2, x4);
    Sum(4 * m, 4 * m, x4, x4, x8);
    Sum(8 * m, m, x8, x, x9);
    Sum(9 * m, 9 * m, x9, x9, x18);
    Sum(18 * m, 18 * m, x18, x18, x36);
    Sum(36 * m, m, x36, x, x37);
    Sum(37 * m, 37 * m, x37, x37, x74);
    Sum(74 * m, m, x74, x, x75);
    Sum(75 * m, 75 * m, x75, x75, x150);
    Sum(150 * m, m, x150, x, y);
  }

  lemma By331(m: nat, x: int, x2: int, x4: int, x5: int, x10: int, x20: int, x40: int, x41: int, x82: int, x164:
              int, x165: int, x330: int, y: int)
    requires At(m, x)
    requires Times(x, x, x2) && Times(x2, x2, x4) && Times(x4, x, x5)
    requires Times(x5, x5, x10) && Times(x10, x10, x20) && Times(x20, x20, x40)
    requires Times(x40, x, x41) && Times(x41, x41, x82) && Times(x82, x82, x164)
    requires Times(x164, x, x165) && Times(x165, x165, x330) && Times(x330, x, y)
    ensures At(331 * m, y)
  {
    hide At, Times;
    Sum(m, m, x, x, x2);
    Sum(2 * m, 2 * m, x2, x2, x4);
    Sum(4 * m, m, x4, x, x5);
    Sum(5 * m, 5 * m, x5, x5, x10);
    Sum(10 * m, 10 * m, x10, x10, x20);
    Sum(20 * m, 20 * m, x20, x20, x40);
    Sum(40 * m, m, x40, x, x41);
    Sum(41 * m, 41 * m, x41, x41, x82);
    Sum(82 * m, 82 * m, x82, x82, x164);
    Sum(164 * m, m, x164, x, x165);
    Sum(165 * m, 165 * m, x165, x165, x330);
    Sum(330 * m, m, x330, x, y);
  }

  // ---- the table ----

  /** N steps, and what they are put together from. */
  lemma WholeJump()
    ensures At(331, 555860589)
    ensures At(49981, 560223525)
    ensures At(1549411, 942143378)
    ensures At(17043521, 430777829)
    ensures At(119304647, 1074490442)
    ensures At(357913941, 634005912)
    ensures At(1073741823, 2147483646)
    ensures At(2147483646, 1)
  {
    hide At;
    assert At(1, A) by { AtOne(); }
    By331(1, A, 282475249, 984943658, 1144108930, 2007237709, 143542612, 784558821, 530511967, 269220094,
          436476770, 60935238, 925238588, 555860589);
    By151(331, 555860589, 1448530832, 1305712687, 759417218, 1812642440, 901514220, 289286395, 441924519,
          181670560, 1540797964, 661242771, 560223525);
    By31(49981, 560223525, 871342565, 1650715800, 64613003, 1940668509, 61803838, 1390445717, 1930637928,
         942143378);
    By11(1549411, 942143378, 1451889758, 1501098710, 790745649, 1821461676, 430777829);
    By7(17043521, 430777829, 2084867038, 1568387158, 744525991, 1074490442);
    By3(119304647, 1074490442, 473297587, 634005912);
    By3(357913941, 634005912, 634005911, 2147483646);
    By2(1073741823, 2147483646, 1);
  }

  lemma Jump331()
    ensures At(N / 331, 759513457)
  {
    hide At;
    assert At(1, A) by { AtOne(); }
    By151(1, A, 282475249, 984943658, 1457850878, 1458777923, 16531729, 704877633, 1358580979, 1962408013,
          1137623865, 1049077006, 996497972);
    By31(151, 996497972, 1616927224, 1187262410, 1432063067, 108218770, 111398400, 952539874, 1820044081,
         184149733);
    By11(4681, 184149733, 1588280530, 1292075693, 1852503222, 1474535260, 1070568725);
    By7(51491, 1070568725, 1687624478, 882192469, 1772872032, 1184126167);
    By3(360437, 1184126167, 1872803136, 33453998);
    By3(1081311, 33453998, 289615366, 642181603);
    By2(3243933, 642181603, 759513457);
  }

  lemma Jump151()
    ensures At(N / 151, 1013763951)
  {
    hide At;
    WholeJump();
    By31(331, 555860589, 1448530832, 2067029090, 1270697084, 522604637, 40557614, 1390988178, 1479854970,
         473691903);
    By11(10261, 473691903, 370371112, 1371788719, 382085147, 941212518, 1615827321);
    By7(112871, 1615827321, 600823517, 1863638932, 1791583420, 1906083346);
    By3(790097, 1906083346, 1962800483, 1266177445);
    By3(2370291, 1266177445, 1104572887, 597511775);
    By2(7110873, 597511775, 1013763951);
  }

  lemma Jump31()
    ensures At(N / 31, 16384)
  {
    hide At;
    WholeJump();
    By11(49981, 560223525, 871342565, 51022971, 755121986, 1350377864, 1683446425);
    By7(549791, 1683446425, 179742878, 747263461, 2134216551, 925274889);
    By3(3848537, 925274889, 1893894220, 1277545001);
    By3(11545611, 1277545001, 348890570, 2147483519);
    By2(34636833, 2147483519, 16384);
  }

  lemma Jump11()
    ensures At(N / 11, 298192073)
  {
    hide At;
    WholeJump();
    By7(1549411, 942143378, 1451889758, 1689239032, 1429973598, 1461621549);
    By3(10845877, 1461621549, 611601736, 1343336283);
    By3(32537631, 1343336283, 1414113276, 1819912402);
    By2(97612893, 1819912402, 298192073);
  }

  lemma Jump7()
    ensures At(N / 7, 1600955193)
  {
    hide At;
    WholeJump();
    By3(17043521, 430777829, 2084867038, 1568387158);
    By3(51130563, 1568387158, 744525991, 394883873);
    By2(153391689, 394883873, 1600955193);
  }

  lemma Jump3()
    ensures At(N / 3, 634005911)
  {
    hide At;
    WholeJump();
    By3(119304647, 1074490442, 473297587, 634005912);
    By2(357913941, 634005912, 634005911);
  }
}
