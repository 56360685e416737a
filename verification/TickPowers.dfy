/** The powers behind `getTickAtSqrtPrice` (docs/superpowers/specs/_contract/TickMath.sol): its scale factor
    makes a tick one unit of 2^128, so the price at tick t, raised to the N-th power, is 2^(2^128 * t) times
    that of 1, within bounds that hold on every tick. */
module TickPowers {
  import opened TickMath
  import TickOrder
  import opened Words

  /** The factor that turns a binary logarithm with 64 fraction places into ticks with 128. */
  const SCALE: nat := 255738958999603826347141

  // ---- powers ----

  lemma {:induction false} PowerMonotone(a: nat, b: nat, n: nat)
    requires a <= b
    ensures Power(a, n) <= Power(b, n)
  {
    if n > 0 {
      PowerMonotone(a, b, n - 1);
      MulMonotone(a, b, Power(a, n - 1));
      MulMonotone(Power(a, n - 1), Power(b, n - 1), b);
    }
  }

  lemma {:induction false} PowerPositive(a: nat, n: nat)
    requires a > 0
    ensures Power(a, n) > 0
  {
    if n > 0 {
      PowerPositive(a, n - 1);
      MulMonotone(1, a, Power(a, n - 1));
    }
  }

  lemma {:induction false} PowerStrict(a: nat, b: nat, n: nat)
    requires a < b && n > 0
    ensures Power(a, n) < Power(b, n)
  {
    PowerMonotone(a, b, n - 1);
    PowerPositive(b, n - 1);
    MulMonotone(Power(a, n - 1), Power(b, n - 1), a);
    MulDistributes(b - a, a, Power(b, n - 1));
    MulMonotone(1, b - a, Power(b, n - 1));
  }

  /** Roots keep the order. */
  lemma RootMonotone(a: nat, b: nat, n: nat)
    requires n > 0 && Power(a, n) <= Power(b, n)
    ensures a <= b
  {
    if b < a {
      PowerStrict(b, a, n);
    }
  }

  lemma {:induction false} PowerOfProduct(a: nat, b: nat, n: nat)
    ensures Power(a * b, n) == Power(a, n) * Power(b, n)
  {
    if n > 0 {
      PowerOfProduct(a, b, n - 1);
      Interchange(a, b, Power(a, n - 1), Power(b, n - 1));
    }
  }

  lemma Interchange(a: nat, b: nat, c: nat, d: nat)
    ensures a * b * (c * d) == a * c * (b * d)
  {
    MulAssociates(a, b, c * d);
    MulAssociates(b, c, d);
    MulAssociates(a, c, b * d);
  }

  lemma {:induction false} PowerOfPower(a: nat, m: nat, n: nat)
    ensures 0 <= m * n && Power(Power(a, m), n) == Power(a, m * n)
  {
    MulMonotone(0, m, n);
    if n == 0 {
    } else {
      PowerOfPower(a, m, n - 1);
      NextFactor(m, n);
      PowerAdd(a, m, m * (n - 1));
    }
  }

  lemma NextFactor(m: nat, n: nat)
    requires n > 0
    ensures 0 <= m * (n - 1) && m * n == m + m * (n - 1)
  {
    MulMonotone(0, m, n - 1);
    MulDistributes(1, n - 1, m);
  }

  lemma {:induction false} PowerOfTwo(n: nat)
    ensures Power(2, n) == Pow2(n)
  {
    if n > 0 {
      PowerOfTwo(n - 1);
    }
  }

  lemma Pow2OfPower(m: nat, n: nat)
    ensures 0 <= m * n && Power(Pow2(m), n) == Pow2(m * n)
  {
    hide *;
    PowerOfTwo(m);
    PowerOfPower(2, m, n);
    PowerOfTwo(m * n);
  }

  /** (m + 1)^k (m + 1 - k) <= m^k (m + 1), Bernoulli's inequality. */
  lemma {:induction false} Bernoulli(m: nat, k: nat)
    requires k <= m + 1
    ensures Power(m + 1, k) * (m + 1 - k) <= Power(m, k) * (m + 1)
  {
    if k > 0 {
      Bernoulli(m, k - 1);
      BernoulliStep(m, k, Power(m + 1, k - 1), Power(m, k - 1));
    }
  }

  lemma BernoulliStep(m: nat, k: nat, a: nat, b: nat)
    requires 0 < k <= m + 1 && a * (m + 2 - k) <= b * (m + 1)
    ensures (m + 1) * a * (m + 1 - k) <= m * b * (m + 1)
  {
    Coefficients(m, k);
    Combine(m + 1, m + 1 - k, m, m + 2 - k, a, b);
  }

  lemma Coefficients(m: nat, k: nat)
    requires 0 < k <= m + 1
    ensures (m + 1) * (m + 1 - k) <= m * (m + 2 - k)
  {
    MulDistributes(m, 1, m + 1 - k);
    MulDistributes(m + 1 - k, 1, m);
  }

  /** With u * v <= m * w and a * w <= b * u, u * a * v <= m * b * u. */
  lemma Combine(u: nat, v: nat, m: nat, w: nat, a: nat, b: nat)
    requires u * v <= m * w && a * w <= b * u
    ensures u * a * v <= m * b * u
  {
    MulMonotone(u * v, m * w, a);
    MulMonotone(a * w, b * u, m);
    MulAssociates(u, a, v);
    MulAssociates(m, w, a);
    MulAssociates(m, b, u);
  }

  /** (m + 1)^k is at most twice m^k as long as 2k <= m + 1, and so at most 2^c m^n for n = k * c. */
  lemma CloseBases(m: nat, k: nat, c: nat)
    requires 2 * k <= m + 1
    ensures 0 <= k * c && Power(m + 1, k * c) <= Power(m, k * c) * Pow2(c)
  {
    hide *;
    Bernoulli(m, k);
    AtMostTwice(Power(m + 1, k), Power(m, k), m + 1, k);
    PowerMonotone(Power(m + 1, k), Power(m, k) * 2, c);
    PowerOfProduct(Power(m, k), 2, c);
    PowerOfTwo(c);
    PowerOfPower(m + 1, k, c);
    PowerOfPower(m, k, c);
  }

  lemma AtMostTwice(x: nat, y: nat, n: nat, k: nat)
    requires 2 * k <= n && n > 0 && x * (n - k) <= y * n
    ensures x <= y * 2
  {
    MulMonotone(n, 2 * (n - k), y);
    MulAssociates(y, 2, n - k);
    if x > y * 2 {
      MulMonotone(y * 2 + 1, x, n - k);
      MulDistributes(y * 2, 1, n - k);
    }
  }

  // ---- repeated squaring in 128 bits, rounding up or down ----

  ghost predicate AtMost(x: nat, n: nat, r: nat, e: nat)
  {
    Power(x, n) <= r * Pow2(e)
  }

  ghost predicate AtLeast(x: nat, n: nat, r: nat, e: nat)
  {
    r * Pow2(e) <= Power(x, n)
  }

  lemma SquareAtMost(x: nat, n: nat, r: nat, e: nat, s: nat, k: nat)
    requires AtMost(x, n, r, e) && r * r <= s * Pow2(k)
    ensures AtMost(x, 2 * n, s, 2 * e + k)
  {
    hide Power, Pow2;
    PowerAdd(x, n, n);
    Pow2Add(e, e);
    Pow2Add(k, 2 * e);
    var p, t := Power(x, n), Pow2(e);
    MulMonotone(p, r * t, p);
    MulMonotone(p, r * t, r * t);
    Interchange(r, t, r, t);
    MulMonotone(r * r, s * Pow2(k), t * t);
    MulAssociates(s, Pow2(k), t * t);
  }

  lemma SquareAtLeast(x: nat, n: nat, r: nat, e: nat, s: nat, k: nat)
    requires AtLeast(x, n, r, e) && s * Pow2(k) <= r * r
    ensures AtLeast(x, 2 * n, s, 2 * e + k)
  {
    hide Power, Pow2;
    PowerAdd(x, n, n);
    Pow2Add(e, e);
    Pow2Add(k, 2 * e);
    var p, t := Power(x, n), Pow2(e);
    MulMonotone(r * t, p, p);
    MulMonotone(r * t, p, r * t);
    Interchange(r, t, r, t);
    MulMonotone(s * Pow2(k), r * r, t * t);
    MulAssociates(s, Pow2(k), t * t);
  }

  lemma UpBy127(x: nat, n: nat, r: nat, e: nat, s: nat)
    requires AtMost(x, n, r, e) && r * r <= s * Q127
    ensures AtMost(x, 2 * n, s, 2 * e + 127)
  {
    PowersOfHalf();
    hide AtMost, Pow2;
    SquareAtMost(x, n, r, e, s, 127);
  }

  lemma UpBy128(x: nat, n: nat, r: nat, e: nat, s: nat)
    requires AtMost(x, n, r, e) && r * r <= s * Q128
    ensures AtMost(x, 2 * n, s, 2 * e + 128)
  {
    assert Pow2(128) == Q128 by { Pow2Constants(); }
    hide AtMost, Pow2;
    SquareAtMost(x, n, r, e, s, 128);
  }

  lemma DownBy127(x: nat, n: nat, r: nat, e: nat, s: nat)
    requires AtLeast(x, n, r, e) && s * Q127 <= r * r
    ensures AtLeast(x, 2 * n, s, 2 * e + 127)
  {
    PowersOfHalf();
    hide AtLeast, Pow2;
    SquareAtLeast(x, n, r, e, s, 127);
  }

  lemma DownBy128(x: nat, n: nat, r: nat, e: nat, s: nat)
    requires AtLeast(x, n, r, e) && s * Q128 <= r * r
    ensures AtLeast(x, 2 * n, s, 2 * e + 128)
  {
    assert Pow2(128) == Q128 by { Pow2Constants(); }
    hide AtLeast, Pow2;
    SquareAtLeast(x, n, r, e, s, 128);
  }

  // ---- the factor of a tick, squared 45 times ----

  lemma Up0To15(x: nat)
    requires AtMost(x, 1, 170149690306977047290440390145036331629, 0)
    ensures AtMost(x, 32768, 218908165836476208107744058855993909019, 4161411)
  {
    hide AtMost;
    UpBy127(x, 1, 170149690306977047290440390145036331629, 0, 170158197578816555245393693900417011559);
    UpBy127(x, 2, 170158197578816555245393693900417011559, 127, 170175213398575713619110508055692204903);
    UpBy127(x, 4, 170175213398575713619110508055692204903, 381, 170209250143010116694688827222679578573);
    UpBy127(x, 8, 170209250143010116694688827222679578573, 889, 170277344056308293281129653038711306963);
    UpBy127(x, 16, 170277344056308293281129653038711306963, 1905, 170413613618756627040078594468765338703);
    UpBy127(x, 32, 170413613618756627040078594468765338703, 3937, 170686479992366115363001210252282894547);
    UpBy127(x, 64, 170686479992366115363001210252282894547, 8001, 171233524180542631345778920498736444428);
    UpBy127(x, 128, 171233524180542631345778920498736444428, 16129, 172332877948394717090505148458382683387);
    UpBy127(x, 256, 172332877948394717090505148458382683387, 32385, 174552805017231566634708012716461685542);
    UpBy127(x, 512, 174552805017231566634708012716461685542, 64897, 179078816308238415250044526538297076174);
    UpBy127(x, 1024, 179078816308238415250044526538297076174, 129921, 188485949128306089214570437165153004432);
    UpBy127(x, 2048, 188485949128306089214570437165153004432, 259969, 208808662877631610322425448531544373861);
    UpBy127(x, 4096, 208808662877631610322425448531544373861, 520065, 256263985038488471187636801960762508375);
    UpBy128(x, 8192, 256263985038488471187636801960762508375, 1040257, 192990399773094209582016838218948961404);
    UpBy127(x, 16384, 192990399773094209582016838218948961404, 2080642, 218908165836476208107744058855993909019);
  }

  lemma Up15To30(x: nat)
    requires AtMost(x, 32768, 218908165836476208107744058855993909019, 4161411)
    ensures AtMost(x, 1073741824, 199242490259490087202993559631869421779, 136365288971)
  {
    hide AtMost;
    UpBy127(x, 32768, 218908165836476208107744058855993909019, 4161411, 281653060683124560137239234546615901021);
    UpBy128(x, 65536, 281653060683124560137239234546615901021, 8322949, 233125352071513874401519364403032168024);
    UpBy127(x, 131072, 233125352071513874401519364403032168024, 16646026, 319425483431496366986976178239817918326);
    UpBy128(x, 262144, 319425483431496366986976178239817918326, 33292179, 299846978227794926811070650684154939801);
    UpBy128(x, 524288, 299846978227794926811070650684154939801, 66584486, 264216483404293135248466019345521905863);
    UpBy128(x, 1048576, 264216483404293135248466019345521905863, 133169100, 205154180436128547584810353223672894225);
    UpBy127(x, 2097152, 205154180436128547584810353223672894225, 266338328, 247372428558417847423908160525373111878);
    UpBy128(x, 4194304, 247372428558417847423908160525373111878, 532676783, 179830412502999929326059527743442799925);
    UpBy127(x, 8388608, 179830412502999929326059527743442799925, 1065353694, 190071425408374350344210410772017555342);
    UpBy127(x, 16777216, 190071425408374350344210410772017555342, 2130707515, 212336284619561442252261100853614720116);
    UpBy127(x, 33554432, 212336284619561442252261100853614720116, 4261415157, 264995792606055854598517302737384400854);
    UpBy128(x, 67108864, 264995792606055854598517302737384400854, 8522830441, 206366173875907573942140891129969001164);
    UpBy127(x, 134217728, 206366173875907573942140891129969001164, 17045661010, 250303876192773880440060132787275160876);
    UpBy128(x, 268435456, 250303876192773880440060132787275160876, 34091322147, 184117769615973397581639309997746618072);
    UpBy127(x, 536870912, 184117769615973397581639309997746618072, 68182644422, 199242490259490087202993559631869421779);
  }

  lemma Up30To45(x: nat)
    requires AtMost(x, 1073741824, 199242490259490087202993559631869421779, 136365288971)
    ensures AtMost(x, 35184372088832, 212319734591750865118435771514390734050, 4468417793170601)
  {
    hide AtMost;
    UpBy127(x, 1073741824, 199242490259490087202993559631869421779, 136365288971, 233321345939893349425414072527021150270);
    UpBy127(x, 2147483648, 233321345939893349425414072527021150270, 272730578069, 319962805970794027712257227409739605518);
    UpBy128(x, 4294967296, 319962805970794027712257227409739605518, 545461156265, 300856603681994993513293704571943688366);
    UpBy128(x, 8589934592, 300856603681994993513293704571943688366, 1090922312658, 265998784474469334184972711976123208239);
    UpBy128(x, 17179869184, 265998784474469334184972711976123208239, 2181844625444, 207931295359581637702917775910903946412);
    UpBy127(x, 34359738368, 207931295359581637702917775910903946412, 4363689251016, 254114980926760373248481935154667876424);
    UpBy128(x, 68719476736, 254114980926760373248481935154667876424, 8727378502159, 189767175171939111196597173343774831343);
    UpBy127(x, 137438953472, 189767175171939111196597173343774831343, 17454757004446, 211657048812666743828720142422287940616);
    UpBy127(x, 274877906944, 211657048812666743828720142422287940616, 34909514009019, 263303130970028592332219616299579469100);
    UpBy128(x, 549755813888, 263303130970028592332219616299579469100, 69819028018165, 203738264212579343736732027117137206202);
    UpBy127(x, 1099511627776, 203738264212579343736732027117137206202, 139638056036458, 243969622522339487358687699395453423520);
    UpBy128(x, 2199023255552, 243969622522339487358687699395453423520, 279276112073043, 174917017453102490650742937153608723186);
    UpBy127(x, 4398046511104, 174917017453102490650742937153608723186, 558552224146214, 179826908291123161049141653597642656821);
    UpBy127(x, 8796093022208, 179826908291123161049141653597642656821, 1117104448292555, 190064017939885768640989296556049442970);
    UpBy127(x, 17592186044416, 190064017939885768640989296556049442970, 2234208896585237, 212319734591750865118435771514390734050);
  }

  lemma Down0To15(x: nat)
    requires AtLeast(x, 1, 170149690306975771295363392938861174579, 0)
    ensures AtLeast(x, 32768, 218908165782682716661144040264142846070, 4161411)
  {
    hide AtLeast;
    DownBy127(x, 1, 170149690306975771295363392938861174579, 0, 170158197578814003127643381616545169310);
    DownBy127(x, 2, 170158197578814003127643381616545169310, 127, 170175213398570608873186333425475796293);
    DownBy127(x, 4, 170175213398570608873186333425475796293, 381, 170209250142999905160840013373847370456);
    DownBy127(x, 8, 170209250142999905160840013373847370456, 889, 170277344056287862042979480533541716795);
    DownBy127(x, 16, 170277344056287862042979480533541716795, 1905, 170413613618715731862353427232566033062);
    DownBy127(x, 32, 170413613618715731862353427232566033062, 3937, 170686479992284194044787911211761540426);
    DownBy127(x, 64, 170686479992284194044787911211761540426, 8001, 171233524180378263599443031626589018488);
    DownBy127(x, 128, 171233524180378263599443031626589018488, 16129, 172332877948063871049655391287266161280);
    DownBy127(x, 256, 172332877948063871049655391287266161280, 32385, 174552805016561350885436900381124689463);
    DownBy127(x, 512, 174552805016561350885436900381124689463, 64897, 179078816306863227460440903012436264282);
    DownBy127(x, 1024, 179078816306863227460440903012436264282, 129921, 188485949125411234523260122405087782877);
    DownBy127(x, 2048, 188485949125411234523260122405087782877, 259969, 208808662871217649599003790647002864996);
    DownBy127(x, 4096, 208808662871217649599003790647002864996, 520065, 256263985022745186285684468351022977839);
    DownBy128(x, 8192, 256263985022745186285684468351022977839, 1040257, 192990399749381920503082496886079298032);
    DownBy127(x, 16384, 192990399749381920503082496886079298032, 2080642, 218908165782682716661144040264142846070);
  }

  lemma Down15To30(x: nat)
    requires AtLeast(x, 32768, 218908165782682716661144040264142846070, 4161411)
    ensures AtLeast(x, 1073741824, 199240885913923782170427402147751883842, 136365288971)
  {
    hide AtLeast;
    DownBy127(x, 32768, 218908165782682716661144040264142846070, 4161411, 281653060544700290297779462469790446241);
    DownBy128(x, 65536, 281653060544700290297779462469790446241, 8322949, 233125351842365243420071217906655806844);
    DownBy127(x, 131072, 233125351842365243420071217906655806844, 16646026, 319425482803543108857527456474104555724);
    DownBy128(x, 262144, 319425482803543108857527456474104555724, 33292179, 299846977048866528797290041809064787391);
    DownBy128(x, 524288, 299846977048866528797290041809064787391, 66584486, 264216481326617937470361701493782478022);
    DownBy128(x, 1048576, 264216481326617937470361701493782478022, 133169100, 205154177209654973757649203570326449332);
    DownBy127(x, 2097152, 205154177209654973757649203570326449332, 266338328, 247372420777532313780441161450945915478);
    DownBy128(x, 4194304, 247372420777532313780441161450945915478, 532676783, 179830401190180296984898128897681468916);
    DownBy127(x, 8388608, 179830401190180296984898128897681468916, 1065353694, 190071401494247086280892676479893341262);
    DownBy127(x, 16777216, 190071401494247086280892676479893341262, 2130707515, 212336231188735605883000464458716317239);
    DownBy127(x, 33554432, 212336231188735605883000464458716317239, 4261415157, 264995659242676288605031432708857632255);
    DownBy128(x, 67108864, 264995659242676288605031432708857632255, 8522830441, 206365966161791208762919021849565770088);
    DownBy127(x, 134217728, 206365966161791208762919021849565770088, 17045661010, 250303372315405569088972430787196658322);
    DownBy128(x, 268435456, 250303372315405569088972430787196658322, 34091322147, 184117028335532632060663941991366329857);
    DownBy127(x, 536870912, 184117028335532632060663941991366329857, 68182644422, 199240885913923782170427402147751883842);
  }

  lemma Down30To45(x: nat)
    requires AtLeast(x, 1073741824, 199240885913923782170427402147751883842, 136365288971)
    ensures AtLeast(x, 35184372088832, 326158707669343853049714484846960073013, 4468417793170600)
  {
    hide AtLeast;
    DownBy127(x, 1073741824, 199240885913923782170427402147751883842, 136365288971, 233317588442591359553277493687360935268);
    DownBy127(x, 2147483648, 233317588442591359553277493687360935268, 272730578069, 319952500443929316555072752817378390588);
    DownBy128(x, 4294967296, 319952500443929316555072752817378390588, 545461156265, 300837223705180241269425289645405507124);
    DownBy128(x, 8589934592, 300837223705180241269425289645405507124, 1090922312658, 265964516426642300352042206135431082935);
    DownBy128(x, 17179869184, 265964516426642300352042206135431082935, 2181844625444, 207877724132831174000318060402365897971);
    DownBy127(x, 34359738368, 207877724132831174000318060402365897971, 4363689251016, 253984057896750466703286251514624709254);
    DownBy128(x, 68719476736, 253984057896750466703286251514624709254, 8727378502159, 189571684978574637110987099982942364688);
    DownBy127(x, 137438953472, 189571684978574637110987099982942364688, 17454757004446, 211221192980391350953017005042945834648);
    DownBy127(x, 274877906944, 211221192980391350953017005042945834648, 34909514009019, 262219830946606033707569631386200223740);
    DownBy128(x, 549755813888, 262219830946606033707569631386200223740, 69819028018165, 202065244707911168652667828577477386636);
    DownBy127(x, 1099511627776, 202065244707911168652667828577477386636, 139638056036458, 239979305941260182204772586926122222785);
    DownBy127(x, 2199023255552, 239979305941260182204772586926122222785, 279276112073043, 338483993755865033729568591443677303329);
    DownBy128(x, 4398046511104, 338483993755865033729568591443677303329, 558552224146213, 336695124891793505895638280767241929315);
    DownBy128(x, 8796093022208, 336695124891793505895638280767241929315, 1117104448292554, 333145699413332921189348087849862741321);
    DownBy128(x, 17592186044416, 333145699413332921189348087849862741321, 2234208896585236, 326158707669343853049714484846960073013);
  }

  // ---- one tick, to the power of the scale ----

  /** 2^64 times the scale: what multiplies a logarithm on its way to ticks in units of 2^-128. */
  const EXPONENT: nat := 0x1_0000_0000_0000_0000 * SCALE

  /** A tick, and how far the power of one may be from it. */
  const TICK: nat := 0x1_0000_0000_0000_0000_0000_0000_0000_0000
  const DRIFT: nat := 0x10_0000_0000_0000_0000_0000_0000

  lemma FactorUp(p: nat, q: nat, x: nat, k: nat, e: nat, m: nat, n: nat, g: nat)
    requires (p + q) * Q127 <= x * p && Power(x, k) <= Pow2(e) && k * m == n && e * m <= 127 * n + g
    ensures Power(p + q, n) <= Power(p, n) * Pow2(g)
  {
    PowersOfHalf();
    hide *;
    PowerMonotone(Power(x, k), Pow2(e), m);
    PowerOfPower(x, k, m);
    Pow2OfPower(e, m);
    Pow2Monotone(e * m, 127 * n + g);
    PowerMonotone((p + q) * Q127, x * p, n);
    PowerOfProduct(p + q, Q127, n);
    PowerOfProduct(x, p, n);
    Pow2OfPower(127, n);
    Pow2Add(127 * n, g);
    CancelPower(Power(p + q, n), Pow2(127 * n), Power(x, n), Power(p, n), Pow2(g));
  }

  lemma CancelPower(a: nat, b: nat, c: nat, d: nat, g: nat)
    requires b > 0 && a * b <= c * d && c <= b * g
    ensures a <= d * g
  {
    MulMonotone(c, b * g, d);
    MulAssociates(b, g, d);
    MulAssociates(d, g, b);
    CancelFactor(a, d * g, b);
  }

  lemma FactorDown(p: nat, q: nat, x: nat, k: nat, e: nat, m: nat, n: nat, g: nat)
    requires x * p <= (p + q) * Q127 && Pow2(e) <= Power(x, k) && k * m == n && 127 * n + g <= e * m
    ensures Power(p, n) * Pow2(g) <= Power(p + q, n)
  {
    PowersOfHalf();
    hide *;
    PowerMonotone(Pow2(e), Power(x, k), m);
    PowerOfPower(x, k, m);
    Pow2OfPower(e, m);
    Pow2Monotone(127 * n + g, e * m);
    PowerMonotone(x * p, (p + q) * Q127, n);
    PowerOfProduct(p + q, Q127, n);
    PowerOfProduct(x, p, n);
    Pow2OfPower(127, n);
    Pow2Add(127 * n, g);
    CancelPowerDown(Power(p + q, n), Pow2(127 * n), Power(x, n), Power(p, n), Pow2(g));
  }

  lemma CancelPowerDown(a: nat, b: nat, c: nat, d: nat, g: nat)
    requires b > 0 && c * d <= a * b && b * g <= c
    ensures d * g <= a
  {
    MulMonotone(b * g, c, d);
    MulAssociates(b, g, d);
    MulAssociates(d, g, b);
    CancelFactor(d * g, a, b);
  }

  /** A mantissa below 2^128 as one more exponent. */
  lemma RoundedExponents(x: nat, n: nat, r: nat, e: nat)
    ensures AtMost(x, n, r, e) && r <= Q128 ==> Power(x, n) <= Pow2(e + 128)
    ensures AtLeast(x, n, r, e) && r >= Q127 ==> Pow2(e + 127) <= Power(x, n)
  {
    PowersOfHalf();
    assert Pow2(128) == Q128 by { Pow2Constants(); }
    hide Power, Pow2, Q127, Q128;
    Pow2Add(e, 128);
    Pow2Add(e, 127);
    if r <= Q128 {
      MulMonotone(r, Q128, Pow2(e));
    }
    if r >= Q127 {
      MulMonotone(Q127, r, Pow2(e));
    }
  }

  /** The scale fits the factor of a tick from above. */
  lemma TickAtMost(p: nat, q: nat)
    requires p == 20_000_499_986 && q == 1_000_000
    ensures Power(p + q, EXPONENT) <= Power(p, EXPONENT) * Pow2(TICK + DRIFT)
  {
    var x: nat := 170149690306977047290440390145036331629;
    StartOfSquaring(x);
    Up0To15(x);
    Up15To30(x);
    Up30To45(x);
    RoundedExponents(x, 0x2000_0000_0000, 212319734591750865118435771514390734050, 4468417793170601);
    hide AtMost, Power, Pow2;
    FactorUp(p, q, x, 0x2000_0000_0000, 4468417793170601 + 128, 0x8_0000 * SCALE, EXPONENT, TICK + DRIFT);
  }

  /** And from below. */
  lemma TickAtLeast(p: nat, q: nat)
    requires p == 20_000_499_989 && q == 1_000_000
    ensures Power(p, EXPONENT) * Pow2(TICK - DRIFT) <= Power(p + q, EXPONENT)
  {
    var x: nat := 170149690306975771295363392938861174579;
    StartOfSquaring(x);
    Down0To15(x);
    Down15To30(x);
    Down30To45(x);
    RoundedExponents(x, 0x2000_0000_0000, 326158707669343853049714484846960073013, 4468417793170600);
    hide AtLeast, Power, Pow2;
    FactorDown(p, q, x, 0x2000_0000_0000, 4468417793170600 + 127, 0x8_0000 * SCALE, EXPONENT, TICK - DRIFT);
  }

  lemma StartOfSquaring(x: nat)
    ensures AtMost(x, 1, x, 0) && AtLeast(x, 1, x, 0)
  {
    assert Pow2(0) == 1 && Power(x, 1) == x;
  }

  // ---- every tick, to the power of the scale ----

  /** Steps of at most one factor take the power down by at most one tick each. */
  lemma NextPowerLow(x: nat, y: nat, n: nat, p: nat, q: nat, g: nat)
    requires x * p <= y * (p + q) && p > 0 && Power(p + q, n) <= Power(p, n) * Pow2(g)
    ensures Power(x, n) <= Power(y, n) * Pow2(g)
  {
    hide *;
    PowerMonotone(x * p, y * (p + q), n);
    PowerOfProduct(x, p, n);
    PowerOfProduct(y, p + q, n);
    PowerPositive(p, n);
    MulMonotone(Power(p + q, n), Power(p, n) * Pow2(g), Power(y, n));
    Exchange(Power(y, n), Power(p, n), Pow2(g));
    CancelFactor(Power(x, n), Power(y, n) * Pow2(g), Power(p, n));
  }

  lemma Exchange(a: nat, b: nat, c: nat)
    ensures a * (b * c) == a * c * b
  {
  }

  lemma NextPowerHigh(x: nat, y: nat, n: nat, p: nat, q: nat, g: nat)
    requires y * (p + q) <= x * p && p > 0 && Power(p, n) * Pow2(g) <= Power(p + q, n)
    ensures Power(y, n) * Pow2(g) <= Power(x, n)
  {
    hide *;
    PowerMonotone(y * (p + q), x * p, n);
    PowerOfProduct(x, p, n);
    PowerOfProduct(y, p + q, n);
    PowerPositive(p, n);
    MulMonotone(Power(p, n) * Pow2(g), Power(p + q, n), Power(y, n));
    Exchange(Power(y, n), Power(p, n), Pow2(g));
    CancelFactor(Power(y, n) * Pow2(g), Power(x, n), Power(p, n));
  }

  lemma StepAsFactors(x: nat, y: nat)
    requires TickOrder.StepsNear(x, y)
    ensures x * 20_000_499_986 <= y * 20_001_499_986
    ensures y * 20_001_499_989 <= x * 20_000_499_989
  {
  }

  lemma NextTickLow(x: nat, y: nat, n: nat, g: nat, j: nat, all: nat)
    requires x * 20_000_499_986 <= y * 20_001_499_986
    requires Power(20_001_499_986, n) <= Power(20_000_499_986, n) * Pow2(g)
    requires all <= Power(x, n) * Pow2(j)
    ensures all <= Power(y, n) * Pow2(j + g)
  {
    hide *;
    NextPowerLow(x, y, n, 20_000_499_986, 1_000_000, g);
    Pow2Add(j, g);
    ChainLow(all, Power(x, n), Power(y, n), Pow2(j), Pow2(g));
  }

  lemma NextTickHigh(x: nat, y: nat, n: nat, g: nat, j: nat, all: nat)
    requires y * 20_001_499_989 <= x * 20_000_499_989
    requires Power(20_000_499_989, n) * Pow2(g) <= Power(20_001_499_989, n)
    requires Power(x, n) * Pow2(j) <= all
    ensures Power(y, n) * Pow2(j + g) <= all
  {
    hide *;
    NextPowerHigh(x, y, n, 20_000_499_989, 1_000_000, g);
    Pow2Add(j, g);
    ChainHigh(all, Power(x, n), Power(y, n), Pow2(j), Pow2(g));
  }

  /** The n-th power of a tick's value is within a ticks' drift of what it should be. */
  ghost predicate PowerWithin(a: nat, y: nat, n: nat, up: nat, down: nat)
  {
    && 0 <= a * up && 0 <= a * down
    && Pow2(128 * n) <= Power(y, n) * Pow2(a * up)
    && Power(y, n) * Pow2(a * down) <= Pow2(128 * n)
  }

  lemma NextTick(a: nat, x: nat, y: nat, n: nat, up: nat, down: nat)
    requires a > 0 && TickOrder.StepsNear(x, y) && PowerWithin(a - 1, x, n, up, down)
    requires Power(20_001_499_986, n) <= Power(20_000_499_986, n) * Pow2(up)
    requires Power(20_000_499_989, n) * Pow2(down) <= Power(20_001_499_989, n)
    ensures PowerWithin(a, y, n, up, down)
  {
    hide Power, Pow2;
    StepAsFactors(x, y);
    MoreTicks(a, up);
    MoreTicks(a, down);
    NextTickLow(x, y, n, up, (a - 1) * up, Pow2(128 * n));
    NextTickHigh(x, y, n, down, (a - 1) * down, Pow2(128 * n));
  }

  /** The value of a tick below 0, to the power of the scale, is 2^(128 * EXPONENT) less a ticks, each give or
      take the drift. */
  lemma {:induction false} PowerAtTick(a: nat, n: nat, up: nat, down: nat)
    requires a <= 887_272 && n == EXPONENT && up == TICK + DRIFT && down == TICK - DRIFT
    ensures PowerWithin(a, PriceAfter(a, 20), n, up, down)
  {
    hide *;
    if a == 0 {
      PowerAtZero(n, up, down);
    } else {
      TickAtMost(20_000_499_986, 1_000_000);
      TickAtLeast(20_000_499_989, 1_000_000);
      PowerAtTick(a - 1, n, up, down);
      TickOrder.TickStep(a - 1);
      NextTick(a, PriceAfter(a - 1, 20), PriceAfter(a, 20), n, up, down);
    }
  }

  lemma PowerAtZero(n: nat, up: nat, down: nat)
    ensures PowerWithin(0, PriceAfter(0, 20), n, up, down)
  {
    assert Pow2(0) == 1;
    assert Pow2(128) == Q128 by { Pow2Constants(); }
    hide Pow2, Power, PriceAfter;
    TickOrder.ZerosBelow(20);
    Pow2OfPower(128, n);
  }

  lemma MoreTicks(a: nat, g: nat)
    requires a > 0
    ensures 0 <= (a - 1) * g && a * g == (a - 1) * g + g
  {
    MulMonotone(0, a - 1, g);
    MulDistributes(a - 1, 1, g);
  }

  lemma ChainLow(all: nat, x: nat, y: nat, g: nat, h: nat)
    requires all <= x * g && x <= y * h
    ensures all <= y * (g * h)
  {
    MulMonotone(x, y * h, g);
    MulAssociates(y, h, g);
  }

  lemma ChainHigh(all: nat, x: nat, y: nat, g: nat, h: nat)
    requires x * g <= all && y * h <= x
    ensures y * (g * h) <= all
  {
    MulMonotone(y * h, x, g);
    MulAssociates(y, h, g);
  }
}
