/** The literal lookup table of html/js/crc32.js and the proof that it is the table of the bit-at-a-time CRC. */
module Crc32Table {
  import opened Crc32Bits

  // The 256 entries of crc32.table in its order, eight to a row as the source lays them out.
  function Quarter0(k: nat): (row: seq<bv32>)
    requires k < 8
    ensures |row| == 8
  {
    match k
    case 0 => [0, 1996959894, 3993919788, 2567524794, 124634137, 1886057615, 3915621685, 2657392035]
    case 1 => [249268274, 2044508324, 3772115230, 2547177864, 162941995, 2125561021, 3887607047, 2428444049]
    case 2 => [498536548, 1789927666, 4089016648, 2227061214, 450548861, 1843258603, 4107580753, 2211677639]
    case 3 => [325883990, 1684777152, 4251122042, 2321926636, 335633487, 1661365465, 4195302755, 2366115317]
    case 4 => [997073096, 1281953886, 3579855332, 2724688242, 1006888145, 1258607687, 3524101629, 2768942443]
    case 5 => [901097722, 1119000684, 3686517206, 2898065728, 853044451, 1172266101, 3705015759, 2882616665]
    case 6 => [651767980, 1373503546, 3369554304, 3218104598, 565507253, 1454621731, 3485111705, 3099436303]
    case _ => [671266974, 1594198024, 3322730930, 2970347812, 795835527, 1483230225, 3244367275, 3060149565]
  }

  function Quarter1(k: nat): (row: seq<bv32>)
    requires k < 8
    ensures |row| == 8
  {
    match k
    case 0 => [1994146192, 31158534, 2563907772, 4023717930, 1907459465, 112637215, 2680153253, 3904427059]
    case 1 => [2013776290, 251722036, 2517215374, 3775830040, 2137656763, 141376813, 2439277719, 3865271297]
    case 2 => [1802195444, 476864866, 2238001368, 4066508878, 1812370925, 453092731, 2181625025, 4111451223]
    case 3 => [1706088902, 314042704, 2344532202, 4240017532, 1658658271, 366619977, 2362670323, 4224994405]
    case 4 => [1303535960, 984961486, 2747007092, 3569037538, 1256170817, 1037604311, 2765210733, 3554079995]
    case 5 => [1131014506, 879679996, 2909243462, 3663771856, 1141124467, 855842277, 2852801631, 3708648649]
    case 6 => [1342533948, 654459306, 3188396048, 3373015174, 1466479909, 544179635, 3110523913, 3462522015]
    case _ => [1591671054, 702138776, 2966460450, 3352799412, 1504918807, 783551873, 3082640443, 3233442989]
  }

  function Quarter2(k: nat): (row: seq<bv32>)
    requires k < 8
    ensures |row| == 8
  {
    match k
    case 0 => [3988292384, 2596254646, 62317068, 1957810842, 3939845945, 2647816111, 81470997, 1943803523]
    case 1 => [3814918930, 2489596804, 225274430, 2053790376, 3826175755, 2466906013, 167816743, 2097651377]
    case 2 => [4027552580, 2265490386, 503444072, 1762050814, 4150417245, 2154129355, 426522225, 1852507879]
    case 3 => [4275313526, 2312317920, 282753626, 1742555852, 4189708143, 2394877945, 397917763, 1622183637]
    case 4 => [3604390888, 2714866558, 953729732, 1340076626, 3518719985, 2797360999, 1068828381, 1219638859]
    case 5 => [3624741850, 2936675148, 906185462, 1090812512, 3747672003, 2825379669, 829329135, 1181335161]
    case 6 => [3412177804, 3160834842, 628085408, 1382605366, 3423369109, 3138078467, 570562233, 1426400815]
    case _ => [3317316542, 2998733608, 733239954, 1555261956, 3268935591, 3050360625, 752459403, 1541320221]
  }

  function Quarter3(k: nat): (row: seq<bv32>)
    requires k < 8
    ensures |row| == 8
  {
    match k
    case 0 => [2607071920, 3965973030, 1969922972, 40735498, 2617837225, 3943577151, 1913087877, 83908371]
    case 1 => [2512341634, 3803740692, 2075208622, 213261112, 2463272603, 3855990285, 2094854071, 198958881]
    case 2 => [2262029012, 4057260610, 1759359992, 534414190, 2176718541, 4139329115, 1873836001, 414664567]
    case 3 => [2282248934, 4279200368, 1711684554, 285281116, 2405801727, 4167216745, 1634467795, 376229701]
    case 4 => [2685067896, 3608007406, 1308918612, 956543938, 2808555105, 3495958263, 1231636301, 1047427035]
    case 5 => [2932959818, 3654703836, 1088359270, 936918000, 2847714899, 3736837829, 1202900863, 817233897]
    case 6 => [3183342108, 3401237130, 1404277552, 615818150, 3134207493, 3453421203, 1423857449, 601450431]
    case _ => [3009837614, 3294710456, 1567103746, 711928724, 3020668471, 3272380065, 1510334235, 755167117]
  }

  function Row(k: nat): (row: seq<bv32>)
    requires k < 32
    ensures |row| == 8
  {
    if k < 8 then Quarter0(k) else if k < 16 then Quarter1(k - 8)
    else if k < 24 then Quarter2(k - 16) else Quarter3(k - 24)
  }

  // crc32.table[b]
  function Entry(b: bv8): bv32 {
    Row((b >> 3) as int)[(b & 7) as int]
  }

  // Row 0 with first added to each entry.
  function RowFrom(first: bv32): (row: seq<bv32>)
    ensures |row| == 8
  {
    [Plus(first, 0), Plus(first, 1996959894), Plus(first, 3993919788), Plus(first, 2567524794),
     Plus(first, 124634137), Plus(first, 1886057615), Plus(first, 3915621685), Plus(first, 2657392035)]
  }

  lemma RowTied(k: bv8)
    requires k < 32
    ensures Row(k as int) == RowFrom(ByteSteps((k as bv32) << 3))
  {
  }

  lemma ColumnTied(first: bv32, j: bv8)
    requires j < 8
    ensures RowFrom(first)[j as int] == Plus(first, ByteSteps(j as bv32))
  {
    if j == 0 {
    } else if j == 1 {
    } else if j == 2 {
    } else if j == 3 {
    } else if j == 4 {
    } else if j == 5 {
    } else if j == 6 {
    } else {
      assert j == 7;
    }
  }

  lemma ByteSplits(b: bv8)
    ensures b >> 3 < 32 && b & 7 < 8
    ensures Plus(((b >> 3) as bv32) << 3, (b & 7) as bv32) == b as bv32
  {
  }

  // The table is the table of the bit-at-a-time code: entry b is b after eight bit steps.
  lemma EntryTied(b: bv8)
    ensures Entry(b) == ByteSteps(b as bv32)
  {
    hide Row, RowFrom, ByteSteps, Plus;
    ByteSplits(b);
    var high, low := ((b >> 3) as bv32) << 3, (b & 7) as bv32;
    RowTied(b >> 3);
    ColumnTied(ByteSteps(high), b & 7);
    ByteStepsLinear(high, low);
  }
}
