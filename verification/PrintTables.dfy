/**
 smilelib/decimal/bid128_2_str_tables.c: the constants of the printing macros and the rows that re-base six bits
 of a coefficient into base 10^18.
 */
module PrintTables {
  import opened Powers

  // bid_Twoto60_m_10to18, bid_Twoto60, bid_Inv_Tento9
  const TWO60_LESS_TEN18: nat := 152921504606846976
  const TWO60: nat := 0x1000_0000_0000_0000
  const INV_TEN9: nat := 2305843009

  const TEN3: nat := 1000
  const TEN6: nat := 1000000
  const TEN9: nat := 1000000000

  // A row entry is the pair (A, B) that stands for A * 10^18 + B.

  // mod10_18_tbl[0]
  function Mod10Row0(c: nat): (nat, nat)
    requires c < 64
  {
    if c < 16 then
      if c < 4 then
        if c == 0 then (0, 0) else if c == 1 then (0, 576460752303423488) else
        if c == 2 then (1, 152921504606846976) else (1, 729382256910270464)
      else if c < 8 then
        if c == 4 then (2, 305843009213693952) else if c == 5 then (2, 882303761517117440) else
        if c == 6 then (3, 458764513820540928) else (4, 35225266123964416)
      else if c < 12 then
        if c == 8 then (4, 611686018427387904) else if c == 9 then (5, 188146770730811392) else
        if c == 10 then (5, 764607523034234880) else (6, 341068275337658368)
      else
        if c == 12 then (6, 917529027641081856) else if c == 13 then (7, 493989779944505344) else
        if c == 14 then (8, 70450532247928832) else (8, 646911284551352320)
    else if c < 32 then
      if c < 20 then
        if c == 16 then (9, 223372036854775808) else if c == 17 then (9, 799832789158199296) else
        if c == 18 then (10, 376293541461622784) else (10, 952754293765046272)
      else if c < 24 then
        if c == 20 then (11, 529215046068469760) else if c == 21 then (12, 105675798371893248) else
        if c == 22 then (12, 682136550675316736) else (13, 258597302978740224)
      else if c < 28 then
        if c == 24 then (13, 835058055282163712) else if c == 25 then (14, 411518807585587200) else
        if c == 26 then (14, 987979559889010688) else (15, 564440312192434176)
      else
        if c == 28 then (16, 140901064495857664) else if c == 29 then (16, 717361816799281152) else
        if c == 30 then (17, 293822569102704640) else (17, 870283321406128128)
    else if c < 48 then
      if c < 36 then
        if c == 32 then (18, 446744073709551616) else if c == 33 then (19, 23204826012975104) else
        if c == 34 then (19, 599665578316398592) else (20, 176126330619822080)
      else if c < 40 then
        if c == 36 then (20, 752587082923245568) else if c == 37 then (21, 329047835226669056) else
        if c == 38 then (21, 905508587530092544) else (22, 481969339833516032)
      else if c < 44 then
        if c == 40 then (23, 58430092136939520) else if c == 41 then (23, 634890844440363008) else
        if c == 42 then (24, 211351596743786496) else (24, 787812349047209984)
      else
        if c == 44 then (25, 364273101350633472) else if c == 45 then (25, 940733853654056960) else
        if c == 46 then (26, 517194605957480448) else (27, 93655358260903936)
    else
      if c < 52 then
        if c == 48 then (27, 670116110564327424) else if c == 49 then (28, 246576862867750912) else
        if c == 50 then (28, 823037615171174400) else (29, 399498367474597888)
      else if c < 56 then
        if c == 52 then (29, 975959119778021376) else if c == 53 then (30, 552419872081444864) else
        if c == 54 then (31, 128880624384868352) else (31, 705341376688291840)
      else if c < 60 then
        if c == 56 then (32, 281802128991715328) else if c == 57 then (32, 858262881295138816) else
        if c == 58 then (33, 434723633598562304) else (34, 11184385901985792)
      else
        if c == 60 then (34, 587645138205409280) else if c == 61 then (35, 164105890508832768) else
        if c == 62 then (35, 740566642812256256) else (36, 317027395115679744)
  }

  lemma Mod10Row0Value(c: nat)
    requires c < 64
    ensures var (a, b) := Mod10Row0(c); a * TEN18 + b == c * 0x800_0000_0000_0000 && b < TEN18
  {
  }

  // mod10_18_tbl[1]
  function Mod10Row1(c: nat): (nat, nat)
    requires c < 64
  {
    if c < 16 then
      if c < 4 then
        if c == 0 then (0, 0) else if c == 1 then (36, 893488147419103232) else
        if c == 2 then (73, 786976294838206464) else (110, 680464442257309696)
      else if c < 8 then
        if c == 4 then (147, 573952589676412928) else if c == 5 then (184, 467440737095516160) else
        if c == 6 then (221, 360928884514619392) else (258, 254417031933722624)
      else if c < 12 then
        if c == 8 then (295, 147905179352825856) else if c == 9 then (332, 41393326771929088) else
        if c == 10 then (368, 934881474191032320) else (405, 828369621610135552)
      else
        if c == 12 then (442, 721857769029238784) else if c == 13 then (479, 615345916448342016) else
        if c == 14 then (516, 508834063867445248) else (553, 402322211286548480)
    else if c < 32 then
      if c < 20 then
        if c == 16 then (590, 295810358705651712) else if c == 17 then (627, 189298506124754944) else
        if c == 18 then (664, 82786653543858176) else (700, 976274800962961408)
      else if c < 24 then
        if c == 20 then (737, 869762948382064640) else if c == 21 then (774, 763251095801167872) else
        if c == 22 then (811, 656739243220271104) else (848, 550227390639374336)
      else if c < 28 then
        if c == 24 then (885, 443715538058477568) else if c == 25 then (922, 337203685477580800) else
        if c == 26 then (959, 230691832896684032) else (996, 124179980315787264)
      else
        if c == 28 then (1033, 17668127734890496) else if c == 29 then (1069, 911156275153993728) else
        if c == 30 then (1106, 804644422573096960) else (1143, 698132569992200192)
    else if c < 48 then
      if c < 36 then
        if c == 32 then (1180, 591620717411303424) else if c == 33 then (1217, 485108864830406656) else
        if c == 34 then (1254, 378597012249509888) else (1291, 272085159668613120)
      else if c < 40 then
        if c == 36 then (1328, 165573307087716352) else if c == 37 then (1365, 59061454506819584) else
        if c == 38 then (1401, 952549601925922816) else (1438, 846037749345026048)
      else if c < 44 then
        if c == 40 then (1475, 739525896764129280) else if c == 41 then (1512, 633014044183232512) else
        if c == 42 then (1549, 526502191602335744) else (1586, 419990339021438976)
      else
        if c == 44 then (1623, 313478486440542208) else if c == 45 then (1660, 206966633859645440) else
        if c == 46 then (1697, 100454781278748672) else (1733, 993942928697851904)
    else
      if c < 52 then
        if c == 48 then (1770, 887431076116955136) else if c == 49 then (1807, 780919223536058368) else
        if c == 50 then (1844, 674407370955161600) else (1881, 567895518374264832)
      else if c < 56 then
        if c == 52 then (1918, 461383665793368064) else if c == 53 then (1955, 354871813212471296) else
        if c == 54 then (1992, 248359960631574528) else (2029, 141848108050677760)
      else if c < 60 then
        if c == 56 then (2066, 35336255469780992) else if c == 57 then (2102, 928824402888884224) else
        if c == 58 then (2139, 822312550307987456) else (2176, 715800697727090688)
      else
        if c == 60 then (2213, 609288845146193920) else if c == 61 then (2250, 502776992565297152) else
        if c == 62 then (2287, 396265139984400384) else (2324, 289753287403503616)
  }

  lemma Mod10Row1Value(c: nat)
    requires c < 64
    ensures var (a, b) := Mod10Row1(c); a * TEN18 + b == c * 0x2_0000_0000_0000_0000 && b < TEN18
  {
  }

  // mod10_18_tbl[2]
  function Mod10Row2(c: nat): (nat, nat)
    requires c < 64
  {
    if c < 16 then
      if c < 4 then
        if c == 0 then (0, 0) else if c == 1 then (2361, 183241434822606848) else
        if c == 2 then (4722, 366482869645213696) else (7083, 549724304467820544)
      else if c < 8 then
        if c == 4 then (9444, 732965739290427392) else if c == 5 then (11805, 916207174113034240) else
        if c == 6 then (14167, 99448608935641088) else (16528, 282690043758247936)
      else if c < 12 then
        if c == 8 then (18889, 465931478580854784) else if c == 9 then (21250, 649172913403461632) else
        if c == 10 then (23611, 832414348226068480) else (25973, 15655783048675328)
      else
        if c == 12 then (28334, 198897217871282176) else if c == 13 then (30695, 382138652693889024) else
        if c == 14 then (33056, 565380087516495872) else (35417, 748621522339102720)
    else if c < 32 then
      if c < 20 then
        if c == 16 then (37778, 931862957161709568) else if c == 17 then (40140, 115104391984316416) else
        if c == 18 then (42501, 298345826806923264) else (44862, 481587261629530112)
      else if c < 24 then
        if c == 20 then (47223, 664828696452136960) else if c == 21 then (49584, 848070131274743808) else
        if c == 22 then (51946, 31311566097350656) else (54307, 214553000919957504)
      else if c < 28 then
        if c == 24 then (56668, 397794435742564352) else if c == 25 then (59029, 581035870565171200) else
        if c == 26 then (61390, 764277305387778048) else (63751, 947518740210384896)
      else
        if c == 28 then (66113, 130760175032991744) else if c == 29 then (68474, 314001609855598592) else
        if c == 30 then (70835, 497243044678205440) else (73196, 680484479500812288)
    else if c < 48 then
      if c < 36 then
        if c == 32 then (75557, 863725914323419136) else if c == 33 then (77919, 46967349146025984) else
        if c == 34 then (80280, 230208783968632832) else (82641, 413450218791239680)
      else if c < 40 then
        if c == 36 then (85002, 596691653613846528) else if c == 37 then (87363, 779933088436453376) else
        if c == 38 then (89724, 963174523259060224) else (92086, 146415958081667072)
      else if c < 44 then
        if c == 40 then (94447, 329657392904273920) else if c == 41 then (96808, 512898827726880768) else
        if c == 42 then (99169, 696140262549487616) else (101530, 879381697372094464)
      else
        if c == 44 then (103892, 62623132194701312) else if c == 45 then (106253, 245864567017308160) else
        if c == 46 then (108614, 429106001839915008) else (110975, 612347436662521856)
    else
      if c < 52 then
        if c == 48 then (113336, 795588871485128704) else if c == 49 then (115697, 978830306307735552) else
        if c == 50 then (118059, 162071741130342400) else (120420, 345313175952949248)
      else if c < 56 then
        if c == 52 then (122781, 528554610775556096) else if c == 53 then (125142, 711796045598162944) else
        if c == 54 then (127503, 895037480420769792) else (129865, 78278915243376640)
      else if c < 60 then
        if c == 56 then (132226, 261520350065983488) else if c == 57 then (134587, 444761784888590336) else
        if c == 58 then (136948, 628003219711197184) else (139309, 811244654533804032)
      else
        if c == 60 then (141670, 994486089356410880) else if c == 61 then (144032, 177727524179017728) else
        if c == 62 then (146393, 360968959001624576) else (148754, 544210393824231424)
  }

  lemma Mod10Row2Value(c: nat)
    requires c < 64
    ensures var (a, b) := Mod10Row2(c); a * TEN18 + b == c * 0x80_0000_0000_0000_0000 && b < TEN18
  {
  }

  // mod10_18_tbl[3]
  function Mod10Row3(c: nat): (nat, nat)
    requires c < 64
  {
    if c < 16 then
      if c < 4 then
        if c == 0 then (0, 0) else if c == 1 then (151115, 727451828646838272) else
        if c == 2 then (302231, 454903657293676544) else (453347, 182355485940514816)
      else if c < 8 then
        if c == 4 then (604462, 909807314587353088) else if c == 5 then (755578, 637259143234191360) else
        if c == 6 then (906694, 364710971881029632) else (1057810, 92162800527867904)
      else if c < 12 then
        if c == 8 then (1208925, 819614629174706176) else if c == 9 then (1360041, 547066457821544448) else
        if c == 10 then (1511157, 274518286468382720) else (1662273, 1970115115220992)
      else
        if c == 12 then (1813388, 729421943762059264) else if c == 13 then (1964504, 456873772408897536) else
        if c == 14 then (2115620, 184325601055735808) else (2266735, 911777429702574080)
    else if c < 32 then
      if c < 20 then
        if c == 16 then (2417851, 639229258349412352) else if c == 17 then (2568967, 366681086996250624) else
        if c == 18 then (2720083, 94132915643088896) else (2871198, 821584744289927168)
      else if c < 24 then
        if c == 20 then (3022314, 549036572936765440) else if c == 21 then (3173430, 276488401583603712) else
        if c == 22 then (3324546, 3940230230441984) else (3475661, 731392058877280256)
      else if c < 28 then
        if c == 24 then (3626777, 458843887524118528) else if c == 25 then (3777893, 186295716170956800) else
        if c == 26 then (3929008, 913747544817795072) else (4080124, 641199373464633344)
      else
        if c == 28 then (4231240, 368651202111471616) else if c == 29 then (4382356, 96103030758309888) else
        if c == 30 then (4533471, 823554859405148160) else (4684587, 551006688051986432)
    else if c < 48 then
      if c < 36 then
        if c == 32 then (4835703, 278458516698824704) else if c == 33 then (4986819, 5910345345662976) else
        if c == 34 then (5137934, 733362173992501248) else (5289050, 460814002639339520)
      else if c < 40 then
        if c == 36 then (5440166, 188265831286177792) else if c == 37 then (5591281, 915717659933016064) else
        if c == 38 then (5742397, 643169488579854336) else (5893513, 370621317226692608)
      else if c < 44 then
        if c == 40 then (6044629, 98073145873530880) else if c == 41 then (6195744, 825524974520369152) else
        if c == 42 then (6346860, 552976803167207424) else (6497976, 280428631814045696)
      else
        if c == 44 then (6649092, 7880460460883968) else if c == 45 then (6800207, 735332289107722240) else
        if c == 46 then (6951323, 462784117754560512) else (7102439, 190235946401398784)
    else
      if c < 52 then
        if c == 48 then (7253554, 917687775048237056) else if c == 49 then (7404670, 645139603695075328) else
        if c == 50 then (7555786, 372591432341913600) else (7706902, 100043260988751872)
      else if c < 56 then
        if c == 52 then (7858017, 827495089635590144) else if c == 53 then (8009133, 554946918282428416) else
        if c == 54 then (8160249, 282398746929266688) else (8311365, 9850575576104960)
      else if c < 60 then
        if c == 56 then (8462480, 737302404222943232) else if c == 57 then (8613596, 464754232869781504) else
        if c == 58 then (8764712, 192206061516619776) else (8915827, 919657890163458048)
      else
        if c == 60 then (9066943, 647109718810296320) else if c == 61 then (9218059, 374561547457134592) else
        if c == 62 then (9369175, 102013376103972864) else (9520290, 829465204750811136)
  }

  lemma Mod10Row3Value(c: nat)
    requires c < 64
    ensures var (a, b) := Mod10Row3(c); a * TEN18 + b == c * 0x2000_0000_0000_0000_0000 && b < TEN18
  {
  }

  // mod10_18_tbl[4]
  function Mod10Row4(c: nat): (nat, nat)
    requires c < 64
  {
    if c < 16 then
      if c < 4 then
        if c == 0 then (0, 0) else if c == 1 then (9671406, 556917033397649408) else
        if c == 2 then (19342813, 113834066795298816) else (29014219, 670751100192948224)
      else if c < 8 then
        if c == 4 then (38685626, 227668133590597632) else if c == 5 then (48357032, 784585166988247040) else
        if c == 6 then (58028439, 341502200385896448) else (67699845, 898419233783545856)
      else if c < 12 then
        if c == 8 then (77371252, 455336267181195264) else if c == 9 then (87042659, 12253300578844672) else
        if c == 10 then (96714065, 569170333976494080) else (106385472, 126087367374143488)
      else
        if c == 12 then (116056878, 683004400771792896) else if c == 13 then (125728285, 239921434169442304) else
        if c == 14 then (135399691, 796838467567091712) else (145071098, 353755500964741120)
    else if c < 32 then
      if c < 20 then
        if c == 16 then (154742504, 910672534362390528) else if c == 17 then (164413911, 467589567760039936) else
        if c == 18 then (174085318, 24506601157689344) else (183756724, 581423634555338752)
      else if c < 24 then
        if c == 20 then (193428131, 138340667952988160) else if c == 21 then (203099537, 695257701350637568) else
        if c == 22 then (212770944, 252174734748286976) else (222442350, 809091768145936384)
      else if c < 28 then
        if c == 24 then (232113757, 366008801543585792) else if c == 25 then (241785163, 922925834941235200) else
        if c == 26 then (251456570, 479842868338884608) else (261127977, 36759901736534016)
      else
        if c == 28 then (270799383, 593676935134183424) else if c == 29 then (280470790, 150593968531832832) else
        if c == 30 then (290142196, 707511001929482240) else (299813603, 264428035327131648)
    else if c < 48 then
      if c < 36 then
        if c == 32 then (309485009, 821345068724781056) else if c == 33 then (319156416, 378262102122430464) else
        if c == 34 then (328827822, 935179135520079872) else (338499229, 492096168917729280)
      else if c < 40 then
        if c == 36 then (348170636, 49013202315378688) else if c == 37 then (357842042, 605930235713028096) else
        if c == 38 then (367513449, 162847269110677504) else (377184855, 719764302508326912)
      else if c < 44 then
        if c == 40 then (386856262, 276681335905976320) else if c == 41 then (396527668, 833598369303625728) else
        if c == 42 then (406199075, 390515402701275136) else (415870481, 947432436098924544)
      else
        if c == 44 then (425541888, 504349469496573952) else if c == 45 then (435213295, 61266502894223360) else
        if c == 46 then (444884701, 618183536291872768) else (454556108, 175100569689522176)
    else
      if c < 52 then
        if c == 48 then (464227514, 732017603087171584) else if c == 49 then (473898921, 288934636484820992) else
        if c == 50 then (483570327, 845851669882470400) else (493241734, 402768703280119808)
      else if c < 56 then
        if c == 52 then (502913140, 959685736677769216) else if c == 53 then (512584547, 516602770075418624) else
        if c == 54 then (522255954, 73519803473068032) else (531927360, 630436836870717440)
      else if c < 60 then
        if c == 56 then (541598767, 187353870268366848) else if c == 57 then (551270173, 744270903666016256) else
        if c == 58 then (560941580, 301187937063665664) else (570612986, 858104970461315072)
      else
        if c == 60 then (580284393, 415022003858964480) else if c == 61 then (589955799, 971939037256613888) else
        if c == 62 then (599627206, 528856070654263296) else (609298613, 85773104051912704)
  }

  lemma Mod10Row4Value(c: nat)
    requires c < 64
    ensures var (a, b) := Mod10Row4(c); a * TEN18 + b == c * 0x8_0000_0000_0000_0000_0000 && b < TEN18
  {
  }

  // mod10_18_tbl[5]
  function Mod10Row5(c: nat): (nat, nat)
    requires c < 64
  {
    if c < 16 then
      if c < 4 then
        if c == 0 then (0, 0) else if c == 1 then (618970019, 642690137449562112) else
        if c == 2 then (1237940039, 285380274899124224) else (1856910058, 928070412348686336)
      else if c < 8 then
        if c == 4 then (2475880078, 570760549798248448) else if c == 5 then (3094850098, 213450687247810560) else
        if c == 6 then (3713820117, 856140824697372672) else (4332790137, 498830962146934784)
      else if c < 12 then
        if c == 8 then (4951760157, 141521099596496896) else if c == 9 then (5570730176, 784211237046059008) else
        if c == 10 then (6189700196, 426901374495621120) else (6808670216, 69591511945183232)
      else
        if c == 12 then (7427640235, 712281649394745344) else if c == 13 then (8046610255, 354971786844307456) else
        if c == 14 then (8665580274, 997661924293869568) else (9284550294, 640352061743431680)
    else if c < 32 then
      if c < 20 then
        if c == 16 then (9903520314, 283042199192993792) else if c == 17 then (10522490333, 925732336642555904) else
        if c == 18 then (11141460353, 568422474092118016) else (11760430373, 211112611541680128)
      else if c < 24 then
        if c == 20 then (12379400392, 853802748991242240) else if c == 21 then (12998370412, 496492886440804352) else
        if c == 22 then (13617340432, 139183023890366464) else (14236310451, 781873161339928576)
      else if c < 28 then
        if c == 24 then (14855280471, 424563298789490688) else if c == 25 then (15474250491, 67253436239052800) else
        if c == 26 then (16093220510, 709943573688614912) else (16712190530, 352633711138177024)
      else
        if c == 28 then (17331160549, 995323848587739136) else if c == 29 then (17950130569, 638013986037301248) else
        if c == 30 then (18569100589, 280704123486863360) else (19188070608, 923394260936425472)
    else if c < 48 then
      if c < 36 then
        if c == 32 then (19807040628, 566084398385987584) else if c == 33 then (20426010648, 208774535835549696) else
        if c == 34 then (21044980667, 851464673285111808) else (21663950687, 494154810734673920)
      else if c < 40 then
        if c == 36 then (22282920707, 136844948184236032) else if c == 37 then (22901890726, 779535085633798144) else
        if c == 38 then (23520860746, 422225223083360256) else (24139830766, 64915360532922368)
      else if c < 44 then
        if c == 40 then (24758800785, 707605497982484480) else if c == 41 then (25377770805, 350295635432046592) else
        if c == 42 then (25996740824, 992985772881608704) else (26615710844, 635675910331170816)
      else
        if c == 44 then (27234680864, 278366047780732928) else if c == 45 then (27853650883, 921056185230295040) else
        if c == 46 then (28472620903, 563746322679857152) else (29091590923, 206436460129419264)
    else
      if c < 52 then
        if c == 48 then (29710560942, 849126597578981376) else if c == 49 then (30329530962, 491816735028543488) else
        if c == 50 then (30948500982, 134506872478105600) else (31567471001, 777197009927667712)
      else if c < 56 then
        if c == 52 then (32186441021, 419887147377229824) else if c == 53 then (32805411041, 62577284826791936) else
        if c == 54 then (33424381060, 705267422276354048) else (34043351080, 347957559725916160)
      else if c < 60 then
        if c == 56 then (34662321099, 990647697175478272) else if c == 57 then (35281291119, 633337834625040384) else
        if c == 58 then (35900261139, 276027972074602496) else (36519231158, 918718109524164608)
      else
        if c == 60 then (37138201178, 561408246973726720) else if c == 61 then (37757171198, 204098384423288832) else
        if c == 62 then (38376141217, 846788521872850944) else (38995111237, 489478659322413056)
  }

  lemma Mod10Row5Value(c: nat)
    requires c < 64
    ensures var (a, b) := Mod10Row5(c); a * TEN18 + b == c * 0x200_0000_0000_0000_0000_0000 && b < TEN18
  {
  }

  // mod10_18_tbl[6]
  function Mod10Row6(c: nat): (nat, nat)
    requires c < 64
  {
    if c < 16 then
      if c < 4 then
        if c == 0 then (0, 0) else if c == 1 then (39614081257, 132168796771975168) else
        if c == 2 then (79228162514, 264337593543950336) else (118842243771, 396506390315925504)
      else if c < 8 then
        if c == 4 then (158456325028, 528675187087900672) else if c == 5 then (198070406285, 660843983859875840) else
        if c == 6 then (237684487542, 793012780631851008) else (277298568799, 925181577403826176)
      else if c < 12 then
        if c == 8 then (316912650057, 57350374175801344) else if c == 9 then (356526731314, 189519170947776512) else
        if c == 10 then (396140812571, 321687967719751680) else (435754893828, 453856764491726848)
      else
        if c == 12 then (475368975085, 586025561263702016) else
        if c == 13 then (514983056342, 718194358035677184) else
        if c == 14 then (554597137599, 850363154807652352) else (594211218856, 982531951579627520)
    else if c < 32 then
      if c < 20 then
        if c == 16 then (633825300114, 114700748351602688) else
        if c == 17 then (673439381371, 246869545123577856) else
        if c == 18 then (713053462628, 379038341895553024) else (752667543885, 511207138667528192)
      else if c < 24 then
        if c == 20 then (792281625142, 643375935439503360) else
        if c == 21 then (831895706399, 775544732211478528) else
        if c == 22 then (871509787656, 907713528983453696) else (911123868914, 39882325755428864)
      else if c < 28 then
        if c == 24 then (950737950171, 172051122527404032) else
        if c == 25 then (990352031428, 304219919299379200) else
        if c == 26 then (1029966112685, 436388716071354368) else (1069580193942, 568557512843329536)
      else
        if c == 28 then (1109194275199, 700726309615304704) else
        if c == 29 then (1148808356456, 832895106387279872) else
        if c == 30 then (1188422437713, 965063903159255040) else (1228036518971, 97232699931230208)
    else if c < 48 then
      if c < 36 then
        if c == 32 then (1267650600228, 229401496703205376) else
        if c == 33 then (1307264681485, 361570293475180544) else
        if c == 34 then (1346878762742, 493739090247155712) else (1386492843999, 625907887019130880)
      else if c < 40 then
        if c == 36 then (1426106925256, 758076683791106048) else
        if c == 37 then (1465721006513, 890245480563081216) else
        if c == 38 then (1505335087771, 22414277335056384) else (1544949169028, 154583074107031552)
      else if c < 44 then
        if c == 40 then (1584563250285, 286751870879006720) else
        if c == 41 then (1624177331542, 418920667650981888) else
        if c == 42 then (1663791412799, 551089464422957056) else (1703405494056, 683258261194932224)
      else
        if c == 44 then (1743019575313, 815427057966907392) else
        if c == 45 then (1782633656570, 947595854738882560) else
        if c == 46 then (1822247737828, 79764651510857728) else (1861861819085, 211933448282832896)
    else
      if c < 52 then
        if c == 48 then (1901475900342, 344102245054808064) else
        if c == 49 then (1941089981599, 476271041826783232) else
        if c == 50 then (1980704062856, 608439838598758400) else (2020318144113, 740608635370733568)
      else if c < 56 then
        if c == 52 then (2059932225370, 872777432142708736) else
        if c == 53 then (2099546306628, 4946228914683904) else
        if c == 54 then (2139160387885, 137115025686659072) else (2178774469142, 269283822458634240)
      else if c < 60 then
        if c == 56 then (2218388550399, 401452619230609408) else
        if c == 57 then (2258002631656, 533621416002584576) else
        if c == 58 then (2297616712913, 665790212774559744) else (2337230794170, 797959009546534912)
      else
        if c == 60 then (2376844875427, 930127806318510080) else
        if c == 61 then (2416458956685, 62296603090485248) else
        if c == 62 then (2456073037942, 194465399862460416) else (2495687119199, 326634196634435584)
  }

  lemma Mod10Row6Value(c: nat)
    requires c < 64
    ensures var (a, b) := Mod10Row6(c); a * TEN18 + b == c * 0x8000_0000_0000_0000_0000_0000 && b < TEN18
  {
  }

  // mod10_18_tbl[7]
  function Mod10Row7(c: nat): (nat, nat)
    requires c < 64
  {
    if c < 16 then
      if c < 4 then
        if c == 0 then (0, 0) else if c == 1 then (2535301200456, 458802993406410752) else
        if c == 2 then (5070602400912, 917605986812821504) else (7605903601369, 376408980219232256)
      else if c < 8 then
        if c == 4 then (10141204801825, 835211973625643008) else
        if c == 5 then (12676506002282, 294014967032053760) else
        if c == 6 then (15211807202738, 752817960438464512) else (17747108403195, 211620953844875264)
      else if c < 12 then
        if c == 8 then (20282409603651, 670423947251286016) else
        if c == 9 then (22817710804108, 129226940657696768) else
        if c == 10 then (25353012004564, 588029934064107520) else (27888313205021, 46832927470518272)
      else
        if c == 12 then (30423614405477, 505635920876929024) else
        if c == 13 then (32958915605933, 964438914283339776) else
        if c == 14 then (35494216806390, 423241907689750528) else (38029518006846, 882044901096161280)
    else if c < 32 then
      if c < 20 then
        if c == 16 then (40564819207303, 340847894502572032) else
        if c == 17 then (43100120407759, 799650887908982784) else
        if c == 18 then (45635421608216, 258453881315393536) else (48170722808672, 717256874721804288)
      else if c < 24 then
        if c == 20 then (50706024009129, 176059868128215040) else
        if c == 21 then (53241325209585, 634862861534625792) else
        if c == 22 then (55776626410042, 93665854941036544) else (58311927610498, 552468848347447296)
      else if c < 28 then
        if c == 24 then (60847228810955, 11271841753858048) else
        if c == 25 then (63382530011411, 470074835160268800) else
        if c == 26 then (65917831211867, 928877828566679552) else (68453132412324, 387680821973090304)
      else
        if c == 28 then (70988433612780, 846483815379501056) else
        if c == 29 then (73523734813237, 305286808785911808) else
        if c == 30 then (76059036013693, 764089802192322560) else (78594337214150, 222892795598733312)
    else if c < 48 then
      if c < 36 then
        if c == 32 then (81129638414606, 681695789005144064) else
        if c == 33 then (83664939615063, 140498782411554816) else
        if c == 34 then (86200240815519, 599301775817965568) else (88735542015976, 58104769224376320)
      else if c < 40 then
        if c == 36 then (91270843216432, 516907762630787072) else
        if c == 37 then (93806144416888, 975710756037197824) else
        if c == 38 then (96341445617345, 434513749443608576) else (98876746817801, 893316742850019328)
      else if c < 44 then
        if c == 40 then (101412048018258, 352119736256430080) else
        if c == 41 then (103947349218714, 810922729662840832) else
        if c == 42 then (106482650419171, 269725723069251584) else (109017951619627, 728528716475662336)
      else
        if c == 44 then (111553252820084, 187331709882073088) else
        if c == 45 then (114088554020540, 646134703288483840) else
        if c == 46 then (116623855220997, 104937696694894592) else (119159156421453, 563740690101305344)
    else
      if c < 52 then
        if c == 48 then (121694457621910, 22543683507716096) else
        if c == 49 then (124229758822366, 481346676914126848) else
        if c == 50 then (126765060022822, 940149670320537600) else (129300361223279, 398952663726948352)
      else if c < 56 then
        if c == 52 then (131835662423735, 857755657133359104) else
        if c == 53 then (134370963624192, 316558650539769856) else
        if c == 54 then (136906264824648, 775361643946180608) else (139441566025105, 234164637352591360)
      else if c < 60 then
        if c == 56 then (141976867225561, 692967630759002112) else
        if c == 57 then (144512168426018, 151770624165412864) else
        if c == 58 then (147047469626474, 610573617571823616) else (149582770826931, 69376610978234368)
      else
        if c == 60 then (152118072027387, 528179604384645120) else
        if c == 61 then (154653373227843, 986982597791055872) else
        if c == 62 then (157188674428300, 445785591197466624) else (159723975628756, 904588584603877376)
  }

  lemma Mod10Row7Value(c: nat)
    requires c < 64
    ensures var (a, b) := Mod10Row7(c); a * TEN18 + b == c * 0x20_0000_0000_0000_0000_0000_0000 && b < TEN18
  {
  }

  // mod10_18_tbl[8]
  function Mod10Row8(c: nat): (nat, nat)
    requires c < 64
  {
    if c < 16 then
      if c < 4 then
        if c == 0 then (0, 0) else if c == 1 then (162259276829213, 363391578010288128) else
        if c == 2 then (324518553658426, 726783156020576256) else (486777830487640, 90174734030864384)
      else if c < 8 then
        if c == 4 then (649037107316853, 453566312041152512) else
        if c == 5 then (811296384146066, 816957890051440640) else
        if c == 6 then (973555660975280, 180349468061728768) else (1135814937804493, 543741046072016896)
      else if c < 12 then
        if c == 8 then (1298074214633706, 907132624082305024) else
        if c == 9 then (1460333491462920, 270524202092593152) else
        if c == 10 then (1622592768292133, 633915780102881280) else (1784852045121346, 997307358113169408)
      else
        if c == 12 then (1947111321950560, 360698936123457536) else
        if c == 13 then (2109370598779773, 724090514133745664) else
        if c == 14 then (2271629875608987, 87482092144033792) else (2433889152438200, 450873670154321920)
    else if c < 32 then
      if c < 20 then
        if c == 16 then (2596148429267413, 814265248164610048) else
        if c == 17 then (2758407706096627, 177656826174898176) else
        if c == 18 then (2920666982925840, 541048404185186304) else (3082926259755053, 904439982195474432)
      else if c < 24 then
        if c == 20 then (3245185536584267, 267831560205762560) else
        if c == 21 then (3407444813413480, 631223138216050688) else
        if c == 22 then (3569704090242693, 994614716226338816) else (3731963367071907, 358006294236626944)
      else if c < 28 then
        if c == 24 then (3894222643901120, 721397872246915072) else
        if c == 25 then (4056481920730334, 84789450257203200) else
        if c == 26 then (4218741197559547, 448181028267491328) else (4381000474388760, 811572606277779456)
      else
        if c == 28 then (4543259751217974, 174964184288067584) else
        if c == 29 then (4705519028047187, 538355762298355712) else
        if c == 30 then (4867778304876400, 901747340308643840) else (5030037581705614, 265138918318931968)
    else if c < 48 then
      if c < 36 then
        if c == 32 then (5192296858534827, 628530496329220096) else
        if c == 33 then (5354556135364040, 991922074339508224) else
        if c == 34 then (5516815412193254, 355313652349796352) else (5679074689022467, 718705230360084480)
      else if c < 40 then
        if c == 36 then (5841333965851681, 82096808370372608) else
        if c == 37 then (6003593242680894, 445488386380660736) else
        if c == 38 then (6165852519510107, 808879964390948864) else (6328111796339321, 172271542401236992)
      else if c < 44 then
        if c == 40 then (6490371073168534, 535663120411525120) else
        if c == 41 then (6652630349997747, 899054698421813248) else
        if c == 42 then (6814889626826961, 262446276432101376) else (6977148903656174, 625837854442389504)
      else
        if c == 44 then (7139408180485387, 989229432452677632) else
        if c == 45 then (7301667457314601, 352621010462965760) else
        if c == 46 then (7463926734143814, 716012588473253888) else (7626186010973028, 79404166483542016)
    else
      if c < 52 then
        if c == 48 then (7788445287802241, 442795744493830144) else
        if c == 49 then (7950704564631454, 806187322504118272) else
        if c == 50 then (8112963841460668, 169578900514406400) else (8275223118289881, 532970478524694528)
      else if c < 56 then
        if c == 52 then (8437482395119094, 896362056534982656) else
        if c == 53 then (8599741671948308, 259753634545270784) else
        if c == 54 then (8762000948777521, 623145212555558912) else (8924260225606734, 986536790565847040)
      else if c < 60 then
        if c == 56 then (9086519502435948, 349928368576135168) else
        if c == 57 then (9248778779265161, 713319946586423296) else
        if c == 58 then (9411038056094375, 76711524596711424) else (9573297332923588, 440103102606999552)
      else
        if c == 60 then (9735556609752801, 803494680617287680) else
        if c == 61 then (9897815886582015, 166886258627575808) else
        if c == 62 then (10060075163411228, 530277836637863936) else (10222334440240441, 893669414648152064)
  }

  lemma Mod10Row8Value(c: nat)
    requires c < 64
    ensures var (a, b) := Mod10Row8(c); a * TEN18 + b == c * 0x800_0000_0000_0000_0000_0000_0000 && b < TEN18
  {
  }

  /** 2^(59 + 6 * j), the weight of group j. */
  function GroupUnit(j: nat): nat
    requires j <= 9
  {
    if j == 0 then 0x800_0000_0000_0000
    else if j == 1 then 0x2_0000_0000_0000_0000
    else if j == 2 then 0x80_0000_0000_0000_0000
    else if j == 3 then 0x2000_0000_0000_0000_0000
    else if j == 4 then 0x8_0000_0000_0000_0000_0000
    else if j == 5 then 0x200_0000_0000_0000_0000_0000
    else if j == 6 then 0x8000_0000_0000_0000_0000_0000
    else if j == 7 then 0x20_0000_0000_0000_0000_0000_0000
    else if j == 8 then 0x800_0000_0000_0000_0000_0000_0000
    else 0x2_0000_0000_0000_0000_0000_0000_0000
  }

  function Mod10Entry(j: nat, c: nat): (nat, nat)
    requires j < 9 && c < 64
  {
    if j == 0 then Mod10Row0(c)
    else if j == 1 then Mod10Row1(c)
    else if j == 2 then Mod10Row2(c)
    else if j == 3 then Mod10Row3(c)
    else if j == 4 then Mod10Row4(c)
    else if j == 5 then Mod10Row5(c)
    else if j == 6 then Mod10Row6(c)
    else if j == 7 then Mod10Row7(c)
    else Mod10Row8(c)
  }

  /** Every entry is its group's bits at their place, split at 10^18. */
  lemma Mod10EntryValue(j: nat, c: nat)
    requires j < 9 && c < 64
    ensures var (a, b) := Mod10Entry(j, c); a * TEN18 + b == c * GroupUnit(j) && b < TEN18
  {
    if j == 0 {
      Mod10Row0Value(c);
    } else if j == 1 {
      Mod10Row1Value(c);
    } else if j == 2 {
      Mod10Row2Value(c);
    } else if j == 3 {
      Mod10Row3Value(c);
    } else if j == 4 {
      Mod10Row4Value(c);
    } else if j == 5 {
      Mod10Row5Value(c);
    } else if j == 6 {
      Mod10Row6Value(c);
    } else if j == 7 {
      Mod10Row7Value(c);
    } else {
      Mod10Row8Value(c);
    }
  }
}
