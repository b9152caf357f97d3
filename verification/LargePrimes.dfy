/** Three primes of the source: the modulus P of the w half of the generator, (P - 1) / 2, and the constant
    with which the search for stride primes gives up. */
module LargePrimes {
  import opened Arithmetic
  import opened Lehmer
  import opened Primes
  import opened Residues

  const P: nat := 1179647999
  const Q: nat := 589823999
  const R: nat := 294911999
  const S: nat := 105401

  // ---------- S, by trial division ----------

  /** The quotients of S by 6k + 5 and by 6k + 7. */
  const FIVES: seq<seq<nat>> := [
    [
      21080, 9581, 6200, 4582, 3634, 3011, 2570, 2242, 1988, 1786, 1621, 1484, 1368, 1269, 1184, 1109, 1043,
      985, 932, 885, 843, 804, 769, 737, 707, 680, 654],
    [
      631, 609, 588, 569, 551, 535, 519, 504, 490, 476, 464, 452, 441, 430, 419, 410, 400, 391, 383, 375,
      367, 359, 352, 345, 338, 332, 326]]
  const SEVENS: seq<seq<nat>> := [
    [
      15057, 8107, 5547, 4216, 3400, 2848, 2451, 2151, 1916, 1727, 1573, 1443, 1334, 1240, 1158, 1086, 1023,
      966, 916, 871, 829, 792, 758, 726, 698, 671, 646],
    [
      623, 602, 582, 563, 546, 529, 514, 499, 485, 472, 460, 448, 437, 426, 416, 406, 397, 388, 380, 372,
      364, 357, 350, 343, 336, 330, 324]]

  lemma FirstFives(k: nat)
    requires k < 27
    ensures !Divides(6 * k + 5, S)
  {
    var q := FIVES[0][k];
    ModUnique(6 * k + 5, q, S - (6 * k + 5) * q, S);
  }

  lemma LastFives(k: nat)
    requires 27 <= k < 54
    ensures !Divides(6 * k + 5, S)
  {
    var q := FIVES[1][k - 27];
    ModUnique(6 * k + 5, q, S - (6 * k + 5) * q, S);
  }

  lemma FirstSevens(k: nat)
    requires k < 27
    ensures !Divides(6 * k + 7, S)
  {
    var q := SEVENS[0][k];
    ModUnique(6 * k + 7, q, S - (6 * k + 7) * q, S);
  }

  lemma LastSevens(k: nat)
    requires 27 <= k < 54
    ensures !Divides(6 * k + 7, S)
  {
    var q := SEVENS[1][k - 27];
    ModUnique(6 * k + 7, q, S - (6 * k + 7) * q, S);
  }

  lemma {:induction false} NoneTried(k: nat)
    requires k <= 54
    ensures NoneBelow(S, 6 * k + 5)
  {
    hide NoneBelow;
    TwoAndThree();
    if k > 0 {
      NoneTried(k - 1);
      if k <= 27 {
        FirstFives(k - 1);
        FirstSevens(k - 1);
      } else {
        LastFives(k - 1);
        LastSevens(k - 1);
      }
      NextSix(S, 6 * (k - 1) + 5);
    }
  }

  lemma TwoAndThree()
    ensures !Divides(2, S) && !Divides(3, S) && NoneBelow(S, 5)
  {
    assert !Divides(2, S) && !Divides(3, S) && !Divides(4, S);
  }

  lemma PrimeS()
    ensures IsPrime(S)
  {
    NoneTried(54);
    IsqrtBelow(S, 325);
    NoneMeansPrime(S, 329);
  }

  // ---------- R, Q and P, by the orders of powers ----------

  lemma Squared(a: nat, m: nat, k: nat)
    requires m > 0 && k > 0
    ensures PowMod(a, 2 * k, m) == (PowMod(a, k, m) * PowMod(a, k, m)) % m
    ensures PowMod(a, 2 * k + 1, m) == (((PowMod(a, k, m) * PowMod(a, k, m)) % m) * a) % m
  {
    assert (2 * k) / 2 == k && (2 * k + 1) / 2 == k;
  }

  lemma TimesBase(a: nat, m: nat, s: nat)
    requires m > 0
    ensures ((s % m) * a) % m == (s * a) % m
  {
    ModMul(m, a, s);
    assert a * s == s * a && a * (s % m) == (s % m) * a;
  }

  /** One step of a power by squaring: from the exponent k to e, which is 2k or 2k + 1. */
  lemma Up(a: nat, m: nat, k: nat, h: nat, e: nat, q: nat, r: nat)
    requires k > 0 && r < m && PowMod(a, k, m) == h && (e == 2 * k || e == 2 * k + 1)
    requires h * h * (if e == 2 * k then 1 else a) == m * q + r
    ensures PowMod(a, e, m) == r
  {
    hide PowMod;
    Squared(a, m, k);
    TimesBase(a, m, h * h);
    ModUnique(m, q, r, m * q + r);
  }

  lemma PowOne(a: nat, m: nat)
    requires a < m && m > 1
    ensures PowMod(a, 1, m) == a
  {
    PowModIs(a, 1, m);
    assert Pow(a, 1) == a;
    ModUnique(m, 0, a, a);
  }

  lemma PowersR()
    ensures PowMod(2, 2798, R) == 201072094
  {
    hide PowMod;
    PowOne(2, R);
    Up(2, 294911999, 1, 2, 2, 0, 4);
    Up(2, 294911999, 2, 4, 5, 0, 32);
    Up(2, 294911999, 5, 32, 10, 0, 1024);
    Up(2, 294911999, 10, 1024, 21, 0, 2097152);
    Up(2, 294911999, 21, 2097152, 43, 29826, 47740034);
    Up(2, 294911999, 43, 47740034, 87, 15456209, 199490521);
    Up(2, 294911999, 87, 199490521, 174, 134943536, 14962977);
    Up(2, 294911999, 174, 14962977, 349, 1518355, 253163413);
    Up(2, 294911999, 349, 253163413, 699, 434649752, 136442890);
    Up(2, 294911999, 699, 136442890, 1399, 126252321, 98604521);
    Up(2, 294911999, 1399, 98604521, 2798, 32968653, 201072094);
  }

  lemma LastPowerR()
    ensures PowMod(2, R - 1, R) == 1
  {
    hide PowMod;
    PowOne(2, R);
    Up(2, 294911999, 1, 2, 2, 0, 4);
    Up(2, 294911999, 2, 4, 4, 0, 16);
    Up(2, 294911999, 4, 16, 8, 0, 256);
    Up(2, 294911999, 8, 256, 17, 0, 131072);
    Up(2, 294911999, 17, 131072, 35, 116, 149946484);
    Up(2, 294911999, 35, 149946484, 70, 76239515, 292521771);
    Up(2, 294911999, 70, 292521771, 140, 290150915, 154647356);
    Up(2, 294911999, 140, 154647356, 281, 162189431, 122698903);
    Up(2, 294911999, 281, 122698903, 562, 51049197, 62788606);
    Up(2, 294911999, 562, 62788606, 1124, 13368086, 78359322);
    Up(2, 294911999, 1124, 78359322, 2249, 41640783, 134144151);
    Up(2, 294911999, 2249, 134144151, 4499, 122034052, 273631654);
    Up(2, 294911999, 4499, 273631654, 8999, 507773724, 157037156);
    Up(2, 294911999, 8999, 157037156, 17999, 167240861, 97145533);
    Up(2, 294911999, 17999, 97145533, 35999, 64000478, 259772656);
    Up(2, 294911999, 35999, 259772656, 71999, 457640469, 74501141);
    Up(2, 294911999, 71999, 74501141, 143999, 37641194, 253316956);
    Up(2, 294911999, 143999, 253316956, 287999, 435177140, 117709012);
    Up(2, 294911999, 287999, 117709012, 575999, 93963023, 67019311);
    Up(2, 294911999, 575999, 67019311, 1151999, 30460531, 6017973);
    Up(2, 294911999, 1151999, 6017973, 2303999, 245605, 136543063);
    Up(2, 294911999, 2303999, 136543063, 4607999, 126437772, 17217710);
    Up(2, 294911999, 4607999, 17217710, 9215999, 2010427, 29874627);
    Up(2, 294911999, 9215999, 29874627, 18431999, 6052607, 247246865);
    Up(2, 294911999, 18431999, 247246865, 36863999, 414571210, 235707660);
    Up(2, 294911999, 36863999, 235707660, 73727999, 376777487, 95984687);
    Up(2, 294911999, 73727999, 95984687, 147455999, 62480063, 1);
    Up(2, 294911999, 147455999, 1, 294911998, 0, 1);
  }

  lemma PrimeR()
    ensures IsPrime(R)
  {
    hide PowMod, IsPrime;
    PrimeS();
    PowersR();
    LastPowerR();
    LargePrime(R, S, 2798, 2, 228435226);
  }

  lemma LastPowerQ()
    ensures PowMod(2, 2, Q) == 4 && PowMod(2, Q - 1, Q) == 1
  {
    hide PowMod;
    PowOne(2, Q);
    Up(2, 589823999, 1, 2, 2, 0, 4);
    Up(2, 589823999, 2, 4, 4, 0, 16);
    Up(2, 589823999, 4, 16, 8, 0, 256);
    Up(2, 589823999, 8, 256, 17, 0, 131072);
    Up(2, 589823999, 17, 131072, 35, 58, 149946426);
    Up(2, 589823999, 35, 149946426, 70, 38119728, 260421204);
    Up(2, 589823999, 70, 260421204, 140, 114982102, 277743718);
    Up(2, 589823999, 140, 277743718, 281, 261574886, 478437934);
    Up(2, 589823999, 281, 478437934, 562, 388086712, 259587068);
    Up(2, 589823999, 562, 259587068, 1124, 114246700, 406283324);
    Up(2, 589823999, 1124, 406283324, 2249, 559713201, 214067153);
    Up(2, 589823999, 2249, 214067153, 4499, 155384474, 149859292);
    Up(2, 589823999, 4499, 149859292, 8999, 76150876, 587809404);
    Up(2, 589823999, 8999, 587809404, 17999, 1171603380, 28153812);
    Up(2, 589823999, 17999, 28153812, 35999, 2687707, 169382395);
    Up(2, 589823999, 35999, 169382395, 71999, 97284599, 248580649);
    Up(2, 589823999, 71999, 248580649, 143999, 209528059, 452434461);
    Up(2, 589823999, 143999, 452434461, 287999, 694094990, 313056032);
    Up(2, 589823999, 287999, 313056032, 575999, 332316349, 442910397);
    Up(2, 589823999, 575999, 442910397, 1151999, 665180189, 409839407);
    Up(2, 589823999, 1151999, 409839407, 2303999, 569554103, 381905401);
    Up(2, 589823999, 2303999, 381905401, 4607999, 494560192, 434293794);
    Up(2, 589823999, 4607999, 434293794, 9215999, 639550441, 340995313);
    Up(2, 589823999, 9215999, 340995313, 18431999, 394279662, 10727600);
    Up(2, 589823999, 18431999, 10727600, 36863999, 390222, 502982222);
    Up(2, 589823999, 36863999, 502982222, 73727999, 857852905, 315247473);
    Up(2, 589823999, 73727999, 315247473, 147455999, 336985166, 251972624);
    Up(2, 589823999, 147455999, 251972624, 294911999, 215285249, 1);
    Up(2, 589823999, 294911999, 1, 589823998, 0, 1);
    Up(2, 589823999, 1, 2, 2, 0, 4);
  }

  lemma PrimeQ()
    ensures IsPrime(Q)
  {
    hide PowMod, IsPrime;
    PrimeR();
    LastPowerQ();
    LargePrime(Q, R, 2, 2, 196608000);
  }

  lemma LastPowerP()
    ensures PowMod(18000, 2, P) == 324000000 && PowMod(18000, P - 1, P) == 1
  {
    hide PowMod;
    PowOne(18000, P);
    Up(18000, 1179647999, 1, 18000, 2, 0, 324000000);
    Up(18000, 1179647999, 2, 324000000, 4, 88989257, 1047453257);
    Up(18000, 1179647999, 4, 1047453257, 8, 930072637, 438204686);
    Up(18000, 1179647999, 8, 438204686, 17, 2930043746874, 78122874);
    Up(18000, 1179647999, 17, 78122874, 35, 93127188830, 553116830);
    Up(18000, 1179647999, 35, 553116830, 70, 259347049, 229843949);
    Up(18000, 1179647999, 70, 229843949, 140, 44783054, 851705655);
    Up(18000, 1179647999, 140, 851705655, 281, 11068764089567, 854123567);
    Up(18000, 1179647999, 281, 854123567, 562, 618427758, 454047247);
    Up(18000, 1179647999, 562, 454047247, 1124, 174763067, 222626076);
    Up(18000, 1179647999, 1124, 222626076, 2249, 756261745562, 379537562);
    Up(18000, 1179647999, 2249, 379537562, 4499, 2198009660202, 309956202);
    Up(18000, 1179647999, 4499, 309956202, 8999, 1465955310664, 555510664);
    Up(18000, 1179647999, 8999, 555510664, 17999, 4708741730946, 730850946);
    Up(18000, 1179647999, 17999, 730850946, 35999, 8150376979399, 13915399);
    Up(18000, 1179647999, 35999, 13915399, 71999, 2954686424, 181552424);
    Up(18000, 1179647999, 71999, 181552424, 143999, 502949259768, 1111563768);
    Up(18000, 1179647999, 143999, 1111563768, 287999, 18853363210720, 377482720);
    Up(18000, 1179647999, 287999, 377482720, 575999, 2174273742971, 790734971);
    Up(18000, 1179647999, 575999, 790734971, 1151999, 9540737837103, 533231103);
    Up(18000, 1179647999, 1151999, 533231103, 2303999, 4338614035760, 1140517760);
    Up(18000, 1179647999, 2303999, 1140517760, 4607999, 19848339263581, 1056575581);
    Up(18000, 1179647999, 4607999, 1056575581, 9215999, 17034179066647, 954908647);
    Up(18000, 1179647999, 9215999, 954908647, 18431999, 13913734815801, 387729801);
    Up(18000, 1179647999, 18431999, 387729801, 36863999, 2293920878768, 32768);
    Up(18000, 1179647999, 36863999, 32768, 73727999, 16384, 16384);
    Up(18000, 1179647999, 73727999, 16384, 147455999, 4096, 4096);
    Up(18000, 1179647999, 147455999, 4096, 294911999, 256, 256);
    Up(18000, 1179647999, 294911999, 256, 589823999, 1, 1);
    Up(18000, 1179647999, 589823999, 1, 1179647998, 0, 1);
  }

  lemma PrimeP()
    ensures IsPrime(P)
  {
    hide PowMod, IsPrime;
    PrimeQ();
    LastPowerP();
    LargePrime(P, Q, 2, 18000, 251335301);
  }

  // ---------- the constant of stress_prime64_get, which gives up with it ----------

  const F: nat := 5594472617641

  lemma Prime2131()
    ensures IsPrime(2131)
  {
    assert !Divides(2, 2131) && !Divides(3, 2131) && NoneBelow(2131, 5) by { assert !Divides(4, 2131); }
    hide NoneBelow;
    NextSix(2131, 5);
    NextSix(2131, 11);
    NextSix(2131, 17);
    NextSix(2131, 23);
    NextSix(2131, 29);
    NextSix(2131, 35);
    NextSix(2131, 41);
    IsqrtBelow(2131, 47);
    NoneMeansPrime(2131, 47);
  }

  lemma Prime15331()
    ensures IsPrime(15331)
  {
    assert !Divides(2, 15331) && !Divides(3, 15331) && NoneBelow(15331, 5) by { assert !Divides(4, 15331); }
    hide NoneBelow;
    NextSix(15331, 5);
    NextSix(15331, 11);
    NextSix(15331, 17);
    NextSix(15331, 23);
    NextSix(15331, 29);
    NextSix(15331, 35);
    NextSix(15331, 41);
    NextSix(15331, 47);
    NextSix(15331, 53);
    NextSix(15331, 59);
    NextSix(15331, 65);
    NextSix(15331, 71);
    NextSix(15331, 77);
    NextSix(15331, 83);
    NextSix(15331, 89);
    NextSix(15331, 95);
    NextSix(15331, 101);
    NextSix(15331, 107);
    NextSix(15331, 113);
    NextSix(15331, 119);
    IsqrtBelow(15331, 124);
    NoneMeansPrime(15331, 125);
  }

  /** A power of a power. */
  lemma Rebase(a: nat, j: nat, k: nat, m: nat)
    requires m > 0
    ensures PowMod(a, j * k, m) == PowMod(PowMod(a, j, m), k, m)
  {
    hide PowMod;
    PowModIs(a, j, m);
    PowModIs(a, j * k, m);
    PowModIs(PowMod(a, j, m), k, m);
    PowPow(a, j, k);
    PowBase(Pow(a, j), k, m);
  }

  lemma RootF()
    ensures PowMod(2, 171240, F) == 552689412041
  {
    hide PowMod;
    PowOne(2, F);
    Up(2, F, 1, 2, 2, 0, 4);
    Up(2, F, 2, 4, 5, 0, 32);
    Up(2, F, 5, 32, 10, 0, 1024);
    Up(2, F, 10, 1024, 20, 0, 1048576);
    Up(2, F, 20, 1048576, 41, 0, 2199023255552);
    Up(2, F, 41, 2199023255552, 83, 1728743211008, 31457280);
    Up(2, F, 83, 31457280, 167, 353, 4272095969527);
    Up(2, F, 167, 4272095969527, 334, 3262292126571, 1551253164718);
    Up(2, F, 334, 1551253164718, 668, 430136412404, 3095858400560);
    Up(2, F, 668, 3095858400560, 1337, 3426360227806, 996922301554);
    Up(2, F, 1337, 996922301554, 2675, 355298575312, 1606403350840);
    Up(2, F, 2675, 1606403350840, 5351, 922529039628, 2465276533652);
    Up(2, F, 5351, 2465276533652, 10702, 1086355909261, 2065344583803);
    Up(2, F, 10702, 2065344583803, 21405, 1524950979791, 3211118792587);
    Up(2, F, 21405, 3211118792587, 42810, 1843119915823, 4834341319026);
    Up(2, F, 42810, 4834341319026, 85620, 4177490459984, 5051866610932);
    Up(2, F, 85620, 5051866610932, 171240, 4561887777263, 552689412041);
  }

  lemma PowersF()
    ensures PowMod(2, 364912440, F) == 1852426820963 && PowMod(2, 2625280440, F) == 1346892610175
  {
    hide PowMod;
    RootF();
    PowOne(552689412041, F);
    Up(552689412041, F, 1, 552689412041, 2, 54601319384, 1367522132537);
    Up(552689412041, F, 2, 1367522132537, 4, 334279370155, 4116572152014);
    Up(552689412041, F, 4, 4116572152014, 8, 3029090933308, 948608969768);
    Up(552689412041, F, 8, 948608969768, 16, 160847865210, 950901804214);
    Up(552689412041, F, 16, 950901804214, 33, 89329177478466447891783, 4724465677733);
    Up(552689412041, F, 33, 4724465677733, 66, 3989755150412, 5051692401197);
    Up(552689412041, F, 66, 5051692401197, 133, 2521133185739918695830774, 5153863569035);
    Up(552689412041, F, 133, 5153863569035, 266, 4747955974342, 4874838264003);
    Up(552689412041, F, 266, 4874838264003, 532, 4247772707878, 1549243108211);
    Up(552689412041, F, 532, 1549243108211, 1065, 237116151758756060463645, 5025837931916);
    Up(552689412041, F, 1065, 5025837931916, 2131, 2495392996605444201095013, 1852426820963);
    Up(552689412041, F, 1, 552689412041, 3, 30177571107140916616042, 4547743987999);
    Up(552689412041, F, 3, 4547743987999, 7, 2043214721756772604753787, 1727276639574);
    Up(552689412041, F, 7, 1727276639574, 14, 533291481347, 1052288259049);
    Up(552689412041, F, 14, 1052288259049, 29, 109393480906552431881853, 3214652403668);
    Up(552689412041, F, 29, 3214652403668, 59, 1020916052275907978928714, 5356572467510);
    Up(552689412041, F, 59, 5356572467510, 119, 2834627275880225157186619, 3866302258321);
    Up(552689412041, F, 119, 3866302258321, 239, 1476772507122379286658793, 2357377625368);
    Up(552689412041, F, 239, 2357377625368, 479, 549010065282393941872946, 1780912999998);
    Up(552689412041, F, 479, 1780912999998, 958, 566925844548, 5092139528736);
    Up(552689412041, F, 958, 5092139528736, 1916, 4634911412087, 3189632930929);
    Up(552689412041, F, 1916, 3189632930929, 3832, 1818537497526, 4128103346875);
    Up(552689412041, F, 3832, 4128103346875, 7665, 1683538741846456638142230, 5237160311195);
    Up(552689412041, F, 7665, 5237160311195, 15331, 2709653311384772915384850, 1346892610175);
    Rebase(2, 171240, 2131, F);
    Rebase(2, 171240, 15331, F);
  }

  lemma LastPowerF()
    ensures PowMod(2, F - 1, F) == 1
  {
    hide PowMod;
    PowersF();
    PowOne(1346892610175, F);
    Up(1346892610175, F, 1, 1346892610175, 2, 324270012087, 1186914103858);
    Up(1346892610175, F, 2, 1186914103858, 4, 251813742996, 229060691728);
    Up(1346892610175, F, 4, 229060691728, 8, 9378685728, 153399898336);
    Up(1346892610175, F, 8, 153399898336, 16, 4206210382, 3358845020034);
    Up(1346892610175, F, 16, 3358845020034, 33, 2716149990669206454144824, 525804122116);
    Up(1346892610175, F, 33, 525804122116, 66, 49418415949, 303667161147);
    Up(1346892610175, F, 66, 303667161147, 133, 22200843557786090885027, 324698760268);
    Up(1346892610175, F, 133, 324698760268, 266, 18845258905, 3198420088719);
    Up(1346892610175, F, 266, 3198420088719, 532, 1828571120656, 2146665968465);
    Up(1346892610175, F, 532, 2146665968465, 1065, 1109437293200525474170026, 4998406060709);
    Up(1346892610175, F, 1065, 4998406060709, 2131, 6015017379782230528044214, 1);
    Rebase(2, 2625280440, 2131, F);
  }

  lemma PrimeF()
    ensures IsPrime(F)
  {
    hide PowMod, IsPrime;
    Prime2131();
    Prime15331();
    PowersF();
    LastPowerF();
    LargePrimeTwo(F, 2131, 2625280440, 15331, 364912440, 2, 1933328135809, 3161697676777);
  }

  lemma PowerGiveUp()
    ensures PowMod(2, 3297316, GIVE_UP) == 11493017446059487016
  {
    hide PowMod;
    PowOne(2, GIVE_UP);
    Up(2, GIVE_UP, 1, 2, 3, 0, 8);
    Up(2, GIVE_UP, 3, 8, 6, 0, 64);
    Up(2, GIVE_UP, 6, 64, 12, 0, 4096);
    Up(2, GIVE_UP, 12, 4096, 25, 0, 33554432);
    Up(2, GIVE_UP, 25, 33554432, 50, 0, 1125899906842624);
    Up(2, GIVE_UP, 50, 1125899906842624, 100, 68719476736, 4054449127424);
    Up(2, GIVE_UP, 100, 4054449127424, 201, 1782272, 105154048);
    Up(2, GIVE_UP, 201, 105154048, 402, 0, 11057373810786304);
    Up(2, GIVE_UP, 402, 11057373810786304, 805, 13256053762432, 7961574084174254208);
    Up(2, GIVE_UP, 805, 7961574084174254208, 1610, 3436197826809680545, 18236870514628348699);
    Up(2, GIVE_UP, 1610, 18236870514628348699, 3220, 18029384743366254100, 15207024341622358901);
    Up(2, GIVE_UP, 3220, 15207024341622358901, 6440, 12536282197153665668, 10692998876667082725);
    Up(2, GIVE_UP, 6440, 10692998876667082725, 12880, 6198396016094900125, 3199590993540181000);
    Up(2, GIVE_UP, 12880, 3199590993540181000, 25760, 554969618759651071, 11075302503556232453);
    Up(2, GIVE_UP, 25760, 11075302503556232453, 51520, 6649537991915781284, 15945028504836738021);
    Up(2, GIVE_UP, 51520, 15945028504836738021, 103041, 27565182560580607465, 15724941571777419877);
    Up(2, GIVE_UP, 103041, 15724941571777419877, 206082, 13404738876831402928, 1929396281097936233);
    Up(2, GIVE_UP, 206082, 1929396281097936233, 412164, 201800924577252815, 12498645655068347334);
    Up(2, GIVE_UP, 412164, 12498645655068347334, 824329, 16936988184662829964, 7387159903147361164);
    Up(2, GIVE_UP, 824329, 7387159903147361164, 1648658, 2958252752714335200, 13518867379275528496);
    Up(2, GIVE_UP, 1648658, 13518867379275528496, 3297316, 9907427266739755000, 11493017446059487016);
  }

  lemma HalfwayGiveUp()
    ensures PowMod(11493017446059487016, 2667652, GIVE_UP) == 3719908085082490393
  {
    hide PowMod;
    PowOne(11493017446059487016, GIVE_UP);
    Up(11493017446059487016, GIVE_UP, 1, 11493017446059487016, 2, 7160583433457109817, 707738172700249187);
    Up(11493017446059487016, GIVE_UP, 2, 707738172700249187, 5, 312075434829071493197894840206406780, 12603256085745122044);
    Up(11493017446059487016, GIVE_UP, 5, 12603256085745122044, 10, 8610845541531334294, 3070276465859542178);
    Up(11493017446059487016, GIVE_UP, 10, 3070276465859542178, 20, 511016878596251756, 3445201699927199592);
    Up(11493017446059487016, GIVE_UP, 20, 3445201699927199592, 40, 643442263076531292, 5495123995007144820);
    Up(11493017446059487016, GIVE_UP, 40, 5495123995007144820, 81, 18813488683584858475069872025813129023, 7267389047912579589);
    Up(11493017446059487016, GIVE_UP, 81, 7267389047912579589, 162, 2863103828116312060, 2545514892988531501);
    Up(11493017446059487016, GIVE_UP, 162, 2545514892988531501, 325, 4037063941155762453943749131345283150, 6769489354311130466);
    Up(11493017446059487016, GIVE_UP, 325, 6769489354311130466, 651, 28551318098958978472858401019463189641, 3742076373895185459);
    Up(11493017446059487016, GIVE_UP, 651, 3742076373895185459, 1302, 759111501309432791, 16893664101364135094);
    Up(11493017446059487016, GIVE_UP, 1302, 16893664101364135094, 2605, 177812403780934412692411283301699511007, 12570569503449865477);
    Up(11493017446059487016, GIVE_UP, 2605, 12570569503449865477, 5210, 8566238953045055850, 10751228489876979079);
    Up(11493017446059487016, GIVE_UP, 5210, 10751228489876979079, 10420, 6266087585954026469, 18149736518505526008);
    Up(11493017446059487016, GIVE_UP, 10420, 18149736518505526008, 20841, 205236685765705868555450061098435010684, 6969370660485990036);
    Up(11493017446059487016, GIVE_UP, 20841, 6969370660485990036, 41682, 2633100302641934125, 15060727138206098671);
    Up(11493017446059487016, GIVE_UP, 41682, 15060727138206098671, 83364, 12296235098462237443, 13582489635803617490);
    Up(11493017446059487016, GIVE_UP, 83364, 13582489635803617490, 166728, 10000899018794368471, 14122594575804140753);
    Up(11493017446059487016, GIVE_UP, 166728, 14122594575804140753, 333456, 10812080264982207730, 17095689938516471399);
    Up(11493017446059487016, GIVE_UP, 333456, 17095689938516471399, 666913, 182090634182248900280551233521901187243, 15896713296576974865);
    Up(11493017446059487016, GIVE_UP, 666913, 15896713296576974865, 1333826, 13699192259826767990, 8258455027259507795);
    Up(11493017446059487016, GIVE_UP, 1333826, 8258455027259507795, 2667652, 3697242134695736976, 3719908085082490393);
  }

  lemma LastPowerGiveUp()
    ensures PowMod(2, GIVE_UP - 1, GIVE_UP) == 1
  {
    hide PowMod;
    PowerGiveUp();
    HalfwayGiveUp();
    Up(11493017446059487016, GIVE_UP, 2667652, 3719908085082490393, 5335304, 750144096224748153, 5996784432043270228);
    Up(11493017446059487016, GIVE_UP, 5335304, 5996784432043270228, 10670609, 22405323470610151290565737440998534053, 4584556924887289223);
    Up(11493017446059487016, GIVE_UP, 10670609, 4584556924887289223, 21341219, 13095107941819365045237578474080781291, 14264922066832602577);
    Up(11493017446059487016, GIVE_UP, 21341219, 14264922066832602577, 42682438, 11031106668998594242, 11038291374004706135);
    Up(11493017446059487016, GIVE_UP, 42682438, 11038291374004706135, 85364877, 75913331492277676966068781450404709522, 9424313153928960846);
    Up(11493017446059487016, GIVE_UP, 85364877, 9424313153928960846, 170729755, 55336764231067119220959986632822744851, 11643026781013480449);
    Up(11493017446059487016, GIVE_UP, 170729755, 11643026781013480449, 341459510, 7348726262028996072, 11958245662470757497);
    Up(11493017446059487016, GIVE_UP, 341459510, 11958245662470757497, 682919020, 7752025980986255738, 2803077620483620943);
    Up(11493017446059487016, GIVE_UP, 682919020, 2803077620483620943, 1365838041, 4895359511268449246788512261761547324, 1611602363253227516);
    Up(11493017446059487016, GIVE_UP, 1365838041, 1611602363253227516, 2731676082, 140797864754085622, 1067009509658116802);
    Up(11493017446059487016, GIVE_UP, 2731676082, 1067009509658116802, 5463352165, 709334239295567855678257676813008947, 1006968241440882785);
    Up(11493017446059487016, GIVE_UP, 5463352165, 1006968241440882785, 10926704331, 631750931211144822416110847494786471, 3462094952625689253);
    Up(11493017446059487016, GIVE_UP, 10926704331, 3462094952625689253, 21853408662, 649767862182191923, 13006730677682223898);
    Up(11493017446059487016, GIVE_UP, 21853408662, 13006730677682223898, 43706817325, 105402433728601792680808636069221959128, 8517951063125016168);
    Up(11493017446059487016, GIVE_UP, 43706817325, 8517951063125016168, 87413634650, 3933241011198245179, 3960158840834210521);
    Up(11493017446059487016, GIVE_UP, 87413634650, 3960158840834210521, 174827269301, 9771012184636735977704650442231525492, 12596247304770439012);
    Up(11493017446059487016, GIVE_UP, 174827269301, 12596247304770439012, 349654538602, 8601271071411882529, 7694063513458488491);
    Up(11493017446059487016, GIVE_UP, 349654538602, 7694063513458488491, 699309077205, 36882969335156955034426001271594014637, 387603828884620487);
    Up(11493017446059487016, GIVE_UP, 699309077205, 387603828884620487, 1398618154410, 8144349353235553, 2519434279401211148);
    Up(11493017446059487016, GIVE_UP, 1398618154410, 2519434279401211148, 2797236308820, 344101325570428346, 12966300365218243182);
    Up(11493017446059487016, GIVE_UP, 2797236308820, 12966300365218243182, 5594472617641, 104748183209616889255063053333648787219, 1);
    Rebase(2, 3297316, F, GIVE_UP);
  }

  lemma PrimeGiveUp()
    ensures IsPrime(GIVE_UP)
  {
    hide PowMod, IsPrime;
    PrimeF();
    PowerGiveUp();
    LastPowerGiveUp();
    LargePrime(GIVE_UP, F, 3297316, 2, 1898613474652435203);
  }
}
