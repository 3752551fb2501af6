/**
 * The fixed Traditional-to-Simplified table of the converter, transcribed
 * entry by entry in the order of its object literal, duplicates included
 * (src/lib/chinese-converter.ts, lines 9-65). One constant holds the entries
 * of one source line; `Literal` is their concatenation.
 */
module ScriptTable {

  /** A table entry: a key and the text that replaces it. */
  type Entry = (string, string)

  /** Every entry's value is as long as its key. */
  predicate SameLengths(es: seq<Entry>) {
    forall e :: e in es ==> |e.0| == |e.1|
  }

  const Line09: seq<Entry> := [("電", "电"), ("視", "视"), ("劇", "剧"), ("動", "动"), ("畫", "画"), ("電影", "电影")]
  const Line10: seq<Entry> := [("電視劇", "电视剧"), ("動畫", "动画"), ("紀錄片", "纪录片"), ("綜藝", "综艺")]
  const Line11: seq<Entry> := [("愛", "爱"), ("戀", "恋"), ("戰", "战"), ("國", "国"), ("學", "学"), ("會", "会")]
  const Line12: seq<Entry> := [("時", "时"), ("間", "间"), ("長", "长"), ("開", "开"), ("關", "关"), ("門", "门")]
  const Line13: seq<Entry> := [("來", "来"), ("對", "对"), ("說", "说"), ("話", "话"), ("語", "语"), ("言", "言")]
  const Line14: seq<Entry> := [("書", "书"), ("讀", "读"), ("寫", "写"), ("聽", "听"), ("見", "见"), ("覺", "觉")]
  const Line15: seq<Entry> := [("個", "个"), ("們", "们"), ("這", "这"), ("那", "那"), ("裡", "里"), ("邊", "边")]
  const Line16: seq<Entry> := [("過", "过"), ("還", "还"), ("沒", "没"), ("別", "别"), ("讓", "让"), ("給", "给")]
  const Line17: seq<Entry> := [("從", "从"), ("當", "当"), ("應", "应"), ("該", "该"), ("能", "能"), ("可", "可")]
  const Line18: seq<Entry> := [("會", "会"), ("要", "要"), ("想", "想"), ("知", "知"), ("道", "道"), ("得", "得")]
  const Line19: seq<Entry> := [("很", "很"), ("多", "多"), ("少", "少"), ("大", "大"), ("小", "小"), ("好", "好")]
  const Line20: seq<Entry> := [("壞", "坏"), ("新", "新"), ("舊", "旧"), ("高", "高"), ("低", "低"), ("快", "快")]
  const Line21: seq<Entry> := [("慢", "慢"), ("早", "早"), ("晚", "晚"), ("前", "前"), ("後", "后"), ("左", "左")]
  const Line22: seq<Entry> := [("右", "右"), ("上", "上"), ("下", "下"), ("中", "中"), ("內", "内"), ("外", "外")]
  const Line23: seq<Entry> := [("東", "东"), ("西", "西"), ("南", "南"), ("北", "北"), ("年", "年"), ("月", "月")]
  const Line24: seq<Entry> := [("日", "日"), ("週", "周"), ("星", "星"), ("期", "期"), ("今", "今"), ("明", "明")]
  const Line25: seq<Entry> := [("昨", "昨"), ("現", "现"), ("在", "在"), ("將", "将"), ("已", "已"), ("經", "经")]
  const Line26: seq<Entry> := [("正", "正"), ("剛", "刚"), ("才", "才"), ("就", "就"), ("只", "只"), ("也", "也")]
  const Line27: seq<Entry> := [("都", "都"), ("還", "还"), ("再", "再"), ("又", "又"), ("或", "或"), ("者", "者")]
  const Line28: seq<Entry> := [("和", "和"), ("與", "与"), ("及", "及"), ("以", "以"), ("為", "为"), ("了", "了")]
  const Line29: seq<Entry> := [("到", "到"), ("在", "在"), ("於", "于"), ("向", "向"), ("往", "往"), ("由", "由")]
  const Line30: seq<Entry> := [("自", "自"), ("從", "从"), ("至", "至"), ("直", "直"), ("間", "间"), ("中", "中")]
  const Line31: seq<Entry> := [("內", "内"), ("外", "外"), ("旁", "旁"), ("邊", "边"), ("側", "侧"), ("面", "面")]
  const Line32: seq<Entry> := [("方", "方"), ("向", "向"), ("處", "处"), ("所", "所"), ("地", "地"), ("方", "方")]
  const Line33: seq<Entry> := [("場", "场"), ("所", "所"), ("位", "位"), ("置", "置"), ("點", "点"), ("線", "线")]
  const Line34: seq<Entry> := [("面", "面"), ("體", "体"), ("積", "积"), ("量", "量"), ("數", "数"), ("字", "字")]
  const Line35: seq<Entry> := [("號", "号"), ("碼", "码"), ("級", "级"), ("層", "层"), ("樓", "楼"), ("室", "室")]
  const Line36: seq<Entry> := [("廳", "厅"), ("房", "房"), ("屋", "屋"), ("家", "家"), ("戶", "户"), ("門", "门")]
  const Line37: seq<Entry> := [("窗", "窗"), ("牆", "墙"), ("壁", "壁"), ("頂", "顶"), ("底", "底"), ("地", "地")]
  const Line38: seq<Entry> := [("板", "板"), ("磚", "砖"), ("瓦", "瓦"), ("石", "石"), ("木", "木"), ("竹", "竹")]
  const Line39: seq<Entry> := [("草", "草"), ("花", "花"), ("樹", "树"), ("林", "林"), ("森", "森"), ("山", "山")]
  const Line40: seq<Entry> := [("水", "水"), ("河", "河"), ("江", "江"), ("海", "海"), ("湖", "湖"), ("池", "池")]
  const Line41: seq<Entry> := [("井", "井"), ("泉", "泉"), ("溪", "溪"), ("流", "流"), ("雲", "云"), ("雨", "雨")]
  const Line42: seq<Entry> := [("雪", "雪"), ("風", "风"), ("雷", "雷"), ("電", "电"), ("火", "火"), ("光", "光")]
  const Line43: seq<Entry> := [("熱", "热"), ("冷", "冷"), ("溫", "温"), ("涼", "凉"), ("暖", "暖"), ("乾", "干")]
  const Line44: seq<Entry> := [("濕", "湿"), ("潮", "潮"), ("燥", "燥"), ("淨", "净"), ("髒", "脏"), ("亂", "乱")]
  const Line45: seq<Entry> := [("整", "整"), ("齊", "齐"), ("潔", "洁"), ("美", "美"), ("醜", "丑"), ("漂", "漂")]
  const Line46: seq<Entry> := [("亮", "亮"), ("暗", "暗"), ("明", "明"), ("清", "清"), ("楚", "楚"), ("白", "白")]
  const Line47: seq<Entry> := [("黑", "黑"), ("紅", "红"), ("綠", "绿"), ("藍", "蓝"), ("黃", "黄"), ("紫", "紫")]
  const Line48: seq<Entry> := [("粉", "粉"), ("灰", "灰"), ("棕", "棕"), ("橙", "橙"), ("銀", "银"), ("金", "金")]
  const Line49: seq<Entry> := [("銅", "铜"), ("鐵", "铁"), ("鋼", "钢"), ("鋁", "铝"), ("錫", "锡"), ("鉛", "铅")]
  const Line50: seq<Entry> := [("鋅", "锌"), ("鎳", "镍"), ("鈦", "钛"), ("鉑", "铂"), ("鑽", "钻"), ("珠", "珠")]
  const Line51: seq<Entry> := [("寶", "宝"), ("玉", "玉"), ("石", "石"), ("礦", "矿"), ("油", "油"), ("氣", "气")]
  const Line52: seq<Entry> := [("煤", "煤"), ("炭", "炭"), ("碳", "碳"), ("氫", "氢"), ("氧", "氧"), ("氮", "氮")]
  const Line53: seq<Entry> := [("硫", "硫"), ("磷", "磷"), ("鈣", "钙"), ("鈉", "钠"), ("鉀", "钾"), ("鎂", "镁")]
  const Line54: seq<Entry> := [("鋰", "锂"), ("氯", "氯"), ("氟", "氟"), ("碘", "碘"), ("溴", "溴"), ("氦", "氦")]
  const Line55: seq<Entry> := [("氖", "氖"), ("氬", "氩"), ("氪", "氪"), ("氙", "氙"), ("氡", "氡"), ("鐳", "镭")]
  const Line56: seq<Entry> := [("鈾", "铀"), ("釷", "钍"), ("鈽", "钚"), ("鎿", "镅"), ("鋦", "锔"), ("鉳", "铋")]
  const Line57: seq<Entry> := [("鉛", "铅"), ("汞", "汞"), ("鎘", "镉"), ("銦", "铟"), ("錫", "锡"), ("銻", "锑")]
  const Line58: seq<Entry> := [("碲", "碲"), ("鉈", "铊"), ("鉍", "铋"), ("釙", "钋"), ("砈", "砈"), ("鐿", "镱")]
  const Line59: seq<Entry> := [("鑥", "镥"), ("鉿", "铪"), ("鉭", "钽"), ("鎢", "钨"), ("錸", "铼"), ("鋨", "锇")]
  const Line60: seq<Entry> := [("銥", "铱"), ("鉑", "铂"), ("金", "金"), ("汞", "汞"), ("鉈", "铊"), ("鉛", "铅")]
  const Line61: seq<Entry> := [("鉍", "铋"), ("釙", "钋"), ("砈", "砈"), ("氡", "氡"), ("鐳", "镭"), ("錒", "锕")]
  const Line62: seq<Entry> := [("釷", "钍"), ("鏷", "镤"), ("鈾", "铀"), ("錼", "镎"), ("鈽", "钚"), ("鎇", "镅")]
  const Line63: seq<Entry> := [("鋦", "锔"), ("鉳", "铋"), ("鉲", "锎"), ("鑀", "锿"), ("鐨", "镄"), ("鍆", "钔")]
  const Line64: seq<Entry> := [("鍩", "锘"), ("鑪", "铹"), ("鑀", "锿"), ("鐨", "镄"), ("鍆", "钔"), ("鍩", "锘")]
  const Line65: seq<Entry> := [("鑪", "铹"), ("鑀", "锿"), ("鐨", "镄"), ("鍆", "钔"), ("鍩", "锘"), ("鑪", "铹")]

  /** The object literal's entries in source order, five source lines at a time. */
  const Lines09To13: seq<Entry> := Line09 + Line10 + Line11 + Line12 + Line13
  const Lines14To18: seq<Entry> := Line14 + Line15 + Line16 + Line17 + Line18
  const Lines19To23: seq<Entry> := Line19 + Line20 + Line21 + Line22 + Line23
  const Lines24To28: seq<Entry> := Line24 + Line25 + Line26 + Line27 + Line28
  const Lines29To33: seq<Entry> := Line29 + Line30 + Line31 + Line32 + Line33
  const Lines34To38: seq<Entry> := Line34 + Line35 + Line36 + Line37 + Line38
  const Lines39To43: seq<Entry> := Line39 + Line40 + Line41 + Line42 + Line43
  const Lines44To48: seq<Entry> := Line44 + Line45 + Line46 + Line47 + Line48
  const Lines49To53: seq<Entry> := Line49 + Line50 + Line51 + Line52 + Line53
  const Lines54To58: seq<Entry> := Line54 + Line55 + Line56 + Line57 + Line58
  const Lines59To63: seq<Entry> := Line59 + Line60 + Line61 + Line62 + Line63
  const Lines64To65: seq<Entry> := Line64 + Line65

  /** The object literal's entries in source order. */
  const Literal: seq<Entry> :=
    Lines09To13 + Lines14To18 + Lines19To23 + Lines24To28
    + Lines29To33 + Lines34To38 + Lines39To43 + Lines44To48
    + Lines49To53 + Lines54To58 + Lines59To63 + Lines64To65

  lemma SameLengthsConcat(a: seq<Entry>, b: seq<Entry>)
    requires SameLengths(a) && SameLengths(b)
    ensures SameLengths(a + b)
  {
  }

  lemma Lines09To13SameLengths()
    ensures SameLengths(Lines09To13)
  {
  }

  lemma Lines14To18SameLengths()
    ensures SameLengths(Lines14To18)
  {
  }

  lemma Lines19To23SameLengths()
    ensures SameLengths(Lines19To23)
  {
  }

  lemma Lines24To28SameLengths()
    ensures SameLengths(Lines24To28)
  {
  }

  lemma Lines29To33SameLengths()
    ensures SameLengths(Lines29To33)
  {
  }

  lemma Lines34To38SameLengths()
    ensures SameLengths(Lines34To38)
  {
  }

  lemma Lines39To43SameLengths()
    ensures SameLengths(Lines39To43)
  {
  }

  lemma Lines44To48SameLengths()
    ensures SameLengths(Lines44To48)
  {
  }

  lemma Lines49To53SameLengths()
    ensures SameLengths(Lines49To53)
  {
  }

  lemma Lines54To58SameLengths()
    ensures SameLengths(Lines54To58)
  {
  }

  lemma Lines59To63SameLengths()
    ensures SameLengths(Lines59To63)
  {
  }

  lemma Lines64To65SameLengths()
    ensures SameLengths(Lines64To65)
  {
  }

  /** Every key of the table is exactly as long as the text that replaces it. */
  lemma LiteralSameLengths()
    ensures SameLengths(Literal)
  {
    Lines09To13SameLengths();
    Lines14To18SameLengths();
    SameLengthsConcat(Lines09To13, Lines14To18);
    Lines19To23SameLengths();
    SameLengthsConcat(Lines09To13 + Lines14To18, Lines19To23);
    Lines24To28SameLengths();
    SameLengthsConcat(Lines09To13 + Lines14To18 + Lines19To23, Lines24To28);
    Lines29To33SameLengths();
    SameLengthsConcat(Lines09To13 + Lines14To18 + Lines19To23 + Lines24To28, Lines29To33);
    Lines34To38SameLengths();
    SameLengthsConcat(Lines09To13 + Lines14To18 + Lines19To23 + Lines24To28 + Lines29To33, Lines34To38);
    Lines39To43SameLengths();
    SameLengthsConcat(Lines09To13 + Lines14To18 + Lines19To23 + Lines24To28 + Lines29To33 + Lines34To38, Lines39To43);
    Lines44To48SameLengths();
    SameLengthsConcat(Lines09To13 + Lines14To18 + Lines19To23 + Lines24To28 + Lines29To33 + Lines34To38 + Lines39To43, Lines44To48);
    Lines49To53SameLengths();
    SameLengthsConcat(Lines09To13 + Lines14To18 + Lines19To23 + Lines24To28 + Lines29To33 + Lines34To38 + Lines39To43 + Lines44To48, Lines49To53);
    Lines54To58SameLengths();
    SameLengthsConcat(Lines09To13 + Lines14To18 + Lines19To23 + Lines24To28 + Lines29To33 + Lines34To38 + Lines39To43 + Lines44To48 + Lines49To53, Lines54To58);
    Lines59To63SameLengths();
    SameLengthsConcat(Lines09To13 + Lines14To18 + Lines19To23 + Lines24To28 + Lines29To33 + Lines34To38 + Lines39To43 + Lines44To48 + Lines49To53 + Lines54To58, Lines59To63);
    Lines64To65SameLengths();
    SameLengthsConcat(Lines09To13 + Lines14To18 + Lines19To23 + Lines24To28 + Lines29To33 + Lines34To38 + Lines39To43 + Lines44To48 + Lines49To53 + Lines54To58 + Lines59To63, Lines64To65);
  }
}
