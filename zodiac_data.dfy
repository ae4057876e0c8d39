/** The fixed sign catalog `zodiacSigns` of src/data/zodiacData.ts. */
module ZodiacData {
  import opened Wrappers
  import opened Types

  const Purple: string := "bg-purple-500"

  /** The entries in object-literal order, which is the order `Object.entries` yields. */
  const Signs: seq<ZodiacSign> := [
    ZodiacSign("Aries",       "牡羊座", "♈", Fire,  "3月21日 - 4月19日",   Purple, "Libra"),
    ZodiacSign("Taurus",      "牡牛座", "♉", Earth, "4月20日 - 5月20日",   Purple, "Scorpio"),
    ZodiacSign("Gemini",      "双子座", "♊", Air,   "5月21日 - 6月20日",   Purple, "Sagittarius"),
    ZodiacSign("Cancer",      "蟹座",   "♋", Water, "6月21日 - 7月22日",   Purple, "Capricorn"),
    ZodiacSign("Leo",         "獅子座", "♌", Fire,  "7月23日 - 8月22日",   Purple, "Aquarius"),
    ZodiacSign("Virgo",       "乙女座", "♍", Earth, "8月23日 - 9月22日",   Purple, "Pisces"),
    ZodiacSign("Libra",       "天秤座", "♎", Air,   "9月23日 - 10月22日",  Purple, "Aries"),
    ZodiacSign("Scorpio",     "蠍座",   "♏", Water, "10月23日 - 11月21日", Purple, "Taurus"),
    ZodiacSign("Sagittarius", "射手座", "♐", Fire,  "11月22日 - 12月21日", Purple, "Gemini"),
    ZodiacSign("Capricorn",   "山羊座", "♑", Earth, "12月22日 - 1月19日",  Purple, "Cancer"),
    ZodiacSign("Aquarius",    "水瓶座", "♒", Air,   "1月20日 - 2月18日",   Purple, "Leo"),
    ZodiacSign("Pisces",      "魚座",   "♓", Water, "2月19日 - 3月20日",   Purple, "Virgo")
  ]

  /** The keys of `signs`, in order: the first components of `Object.entries`. */
  function KeysOf(signs: seq<ZodiacSign>): (ks: seq<string>)
    ensures |ks| == |signs|
    ensures forall i :: 0 <= i < |signs| ==> ks[i] == signs[i].key
  {
    if signs == [] then [] else [signs[0].key] + KeysOf(signs[1..])
  }

  /** The catalog keys in canonical order; index i is the sector drawn at i * 30 degrees. */
  const Keys: seq<string> := KeysOf(Signs)

  /** The first index of `signs` holding `key`, if any. */
  function IndexOfKey(signs: seq<ZodiacSign>, key: string): (r: Option<nat>)
    ensures r.Some? ==> r.value < |signs| && signs[r.value].key == key
    ensures r.Some? ==> forall j :: 0 <= j < r.value ==> signs[j].key != key
    ensures r.None? <==> forall j :: 0 <= j < |signs| ==> signs[j].key != key
  {
    if signs == [] then None
    else if signs[0].key == key then Some(0)
    else match IndexOfKey(signs[1..], key)
      case None => None
      case Some(i) => Some(i + 1)
  }

  /**
   * `zodiacSigns[key]` for the catalog's own keys: the entry stored under `key`,
   * or undefined. Names inherited from the object prototype are not entries.
   */
  function Lookup(key: string): (r: Option<ZodiacSign>)
    ensures r.Some? <==> key in Keys
    ensures r.Some? ==> r.value in Signs && r.value.key == key
  {
    match IndexOfKey(Signs, key)
    case None => None
    case Some(i) => Some(Signs[i])
  }

  /** `zodiacSigns[key]?.opposite`: undefined when `key` is not a catalog key. */
  function Opposite(key: string): (r: Option<string>)
    ensures r.Some? <==> key in Keys
  {
    match Lookup(key)
    case None => None
    case Some(s) => Some(s.opposite)
  }

  /** The catalog holds exactly the twelve signs, Aries to Pisces, each key once. */
  lemma KeysCanonical()
    ensures Keys == ["Aries", "Taurus", "Gemini", "Cancer", "Leo", "Virgo",
                     "Libra", "Scorpio", "Sagittarius", "Capricorn", "Aquarius", "Pisces"]
  {
  }

  /** Each key is told apart from the others by its length and its initial. */
  lemma KeyShapeAt(i: nat)
    requires i < |Keys|
    ensures |Keys[i]| == [5, 6, 6, 6, 3, 5, 5, 7, 11, 9, 8, 6][i]
    ensures Keys[i][0] == "ATGCLVLSSCAP"[i]
  {
    KeysCanonical();
  }

  /** No key appears twice. */
  lemma KeysDistinct()
    ensures forall i, j :: 0 <= i < j < |Keys| ==> Keys[i] != Keys[j]
  {
    forall i, j | 0 <= i < j < |Keys| ensures Keys[i] != Keys[j] {
      KeyShapeAt(i);
      KeyShapeAt(j);
    }
  }

  /** Two canonical indices hold the same key only when they are equal. */
  lemma KeyInjective(i: nat, j: nat)
    requires i < |Keys| && j < |Keys|
    ensures Keys[i] == Keys[j] <==> i == j
  {
    KeysDistinct();
    if i < j {
      assert Keys[i] != Keys[j];
    } else if j < i {
      assert Keys[j] != Keys[i];
    }
  }

  /** No key is the empty string, the value `closestSign` starts from. */
  lemma KeysNonEmpty()
    ensures forall i :: 0 <= i < |Keys| ==> Keys[i] != ""
  {
    forall i | 0 <= i < |Keys| ensures Keys[i] != "" {
      KeyShapeAt(i);
    }
  }

  /** Looking up the key at a canonical index finds the entry at that index. */
  lemma LookupAt(i: nat)
    requires i < |Signs|
    ensures Lookup(Keys[i]) == Some(Signs[i])
  {
    KeysDistinct();
    var r := IndexOfKey(Signs, Keys[i]);
    assert Signs[i].key == Keys[i];
    assert r.Some?;
    assert Keys[r.value] == Signs[r.value].key == Keys[i];
  }

  /** The index of the sector across the circle: (i + 6) mod 12, written without `%`. */
  function AcrossIndex(i: nat): (j: nat)
    requires i < 12
    ensures j < 12 && j == (i + 6) % 12
  {
    if i < 6 then i + 6 else i - 6
  }

  /** The `opposite` field of the entry at index i is the key across the circle from it. */
  lemma OppositeFieldAt(i: nat)
    requires i < |Signs|
    ensures Signs[i].opposite == Keys[AcrossIndex(i)]
  {
    KeysCanonical();
  }

  /** The opposite of the sign at index i is the sign at index (i + 6) mod 12. */
  lemma OppositeAt(i: nat)
    requires i < |Keys|
    ensures Opposite(Keys[i]) == Some(Keys[AcrossIndex(i)])
  {
    LookupAt(i);
    OppositeFieldAt(i);
  }

  /** Every `opposite` value names a catalog key. */
  lemma OppositeInCatalog(k: string)
    requires k in Keys
    ensures Opposite(k).Some? && Opposite(k).value in Keys
  {
    var i :| 0 <= i < |Keys| && Keys[i] == k;
    OppositeAt(i);
  }

  /** `opposite` is an involution on the catalog keys. */
  lemma OppositeInvolution(k: string)
    requires k in Keys
    ensures Opposite(k).Some? && Opposite(Opposite(k).value) == Some(k)
  {
    var i :| 0 <= i < |Keys| && Keys[i] == k;
    OppositeAt(i);
    OppositeAt(AcrossIndex(i));
  }

  /** No sign is its own opposite. */
  lemma OppositeIrreflexive(k: string)
    requires k in Keys
    ensures Opposite(k) != Some(k)
  {
    var i :| 0 <= i < |Keys| && Keys[i] == k;
    OppositeAt(i);
    KeysDistinct();
    assert Keys[AcrossIndex(i)] != Keys[i];
  }

  /** A string that is not a catalog key has no opposite. */
  lemma OppositeOutsideCatalog(k: string)
    requires k !in Keys
    ensures Opposite(k) == None
  {
  }

  /** Elements repeat with period four in canonical order: 火, 土, 風, 水. */
  lemma ElementCycle(i: nat)
    requires i < |Signs|
    ensures Signs[i].element == [Fire, Earth, Air, Water][i % 4]
    ensures i + 4 < |Signs| ==> Signs[i + 4].element == Signs[i].element
  {
  }
}
