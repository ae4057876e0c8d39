/**
 * The logic of src/components/ZodiacMap.tsx: the nearest-sector scan run on a
 * drop, the record handed to `onUserPlaced`, and the highlight and click rules.
 * The twelve sector anchors (computed with cos/sin in the source) are an input.
 */
module ZodiacMap {
  import opened Wrappers
  import opened Types
  import opened ZodiacData

  /** Squared Euclidean distance; the source takes its square root, which orders points the same way. */
  function SquaredDistance(p: Point, q: Point): (d: real)
    ensures d >= 0.0
  {
    (p.x - q.x) * (p.x - q.x) + (p.y - q.y) * (p.y - q.y)
  }

  /** `minDistance`, which starts at JavaScript's `Infinity`. */
  datatype Bound = Finite(value: real) | Infinity

  /** `distance < minDistance`: every finite distance is below `Infinity`. */
  predicate Below(d: real, b: Bound)
  {
    match b
    case Infinity => true
    case Finite(m) => d < m
  }

  /** Anchor `k` is nearest to `drop`, and every anchor before it is strictly farther. */
  ghost predicate IsFirstNearest(anchors: seq<Point>, drop: Point, k: nat)
  {
    && k < |anchors|
    && (forall j :: 0 <= j < |anchors| ==> SquaredDistance(drop, anchors[k]) <= SquaredDistance(drop, anchors[j]))
    && (forall j :: 0 <= j < k ==> SquaredDistance(drop, anchors[k]) < SquaredDistance(drop, anchors[j]))
  }

  /** At most one anchor is the first nearest: the tie-break rule fixes the answer. */
  lemma FirstNearestUnique(anchors: seq<Point>, drop: Point, k1: nat, k2: nat)
    requires IsFirstNearest(anchors, drop, k1) && IsFirstNearest(anchors, drop, k2)
    ensures k1 == k2
  {
    var d1, d2 := SquaredDistance(drop, anchors[k1]), SquaredDistance(drop, anchors[k2]);
    assert d1 <= d2 && d2 <= d1;
    assert k1 < k2 ==> d2 < d1;
    assert k2 < k1 ==> d1 < d2;
  }

  /** The index the scan has settled on after visiting the first `n` anchors. */
  function NearestAmong(anchors: seq<Point>, drop: Point, n: nat): (k: nat)
    requires 0 < n <= |anchors|
    ensures k < n
    ensures forall j :: 0 <= j < n ==> SquaredDistance(drop, anchors[k]) <= SquaredDistance(drop, anchors[j])
    ensures forall j :: 0 <= j < k ==> SquaredDistance(drop, anchors[k]) < SquaredDistance(drop, anchors[j])
  {
    if n == 1 then 0
    else
      var k := NearestAmong(anchors, drop, n - 1);
      if SquaredDistance(drop, anchors[n - 1]) < SquaredDistance(drop, anchors[k]) then n - 1 else k
  }

  /** The index of the anchor nearest to `drop`, ties going to the lowest index. */
  function NearestIndex(anchors: seq<Point>, drop: Point): (k: nat)
    requires |anchors| > 0
    ensures IsFirstNearest(anchors, drop, k)
  {
    NearestAmong(anchors, drop, |anchors|)
  }

  /**
   * The scan in `handleDrop`: visit the catalog in canonical order and keep the
   * key of the first anchor strictly nearer than every one seen before.
   */
  method ClosestSign(anchors: seq<Point>, drop: Point) returns (closestSign: string)
    requires |anchors| == |Keys|
    ensures closestSign == Keys[NearestIndex(anchors, drop)]
    ensures closestSign in Keys && closestSign != ""
  {
    closestSign := "";
    var minDistance := Infinity;
    var index := 0;
    ghost var nearest := 0;
    while index < |Keys|
      invariant 0 <= index <= |Keys|
      invariant index == 0 ==> minDistance == Infinity
      invariant 0 < index ==> nearest == NearestAmong(anchors, drop, index)
      invariant 0 < index ==> closestSign == Keys[nearest]
      invariant 0 < index ==> minDistance == Finite(SquaredDistance(drop, anchors[nearest]))
    {
      var distance := SquaredDistance(drop, anchors[index]);
      if Below(distance, minDistance) {
        minDistance := Finite(distance);
        closestSign := Keys[index];
        nearest := index;
      }
      index := index + 1;
    }
    KeysNonEmpty();
  }

  /** What a drop hands to `onUserPlaced`: the stamped snapshot and the drop point. */
  datatype Placement = Placement(user: User, position: Point)

  /**
   * `handleDrop` after the event plumbing: `payload` is the parsed snapshot, or
   * None when the drag carried no JSON data, in which case nothing is handed on.
   */
  method HandleDrop(anchors: seq<Point>, payload: Option<User>, drop: Point) returns (placed: Option<Placement>)
    requires |anchors| == |Keys|
    ensures placed.None? <==> payload.None?
    ensures placed.Some? ==>
      var u := placed.value.user;
      && u.id == payload.value.id
      && u.name == payload.value.name
      && u.sign == payload.value.sign
      && u.position == payload.value.position
      && u.placedOppositeSign == Some(Keys[NearestIndex(anchors, drop)])
      && placed.value.position == drop
  {
    if payload.None? {
      return None;
    }
    var closestSign := ClosestSign(anchors, drop);
    placed := Some(Placement(payload.value.(placedOppositeSign := Some(closestSign)), drop));
  }

  /** `selectedSign === key`. */
  predicate IsSelected(selectedSign: Option<string>, key: string)
  {
    selectedSign == Some(key)
  }

  /** `selectedSign && zodiacSigns[selectedSign]?.opposite === key`; the empty string is falsy. */
  predicate IsOpposite(selectedSign: Option<string>, key: string)
  {
    selectedSign.Some? && selectedSign.value != "" && Opposite(selectedSign.value) == Some(key)
  }

  /** The rule shared by sectors and placed markers: the selection itself or its catalog opposite. */
  predicate ShouldHighlight(selectedSign: Option<string>, key: string)
  {
    IsSelected(selectedSign, key) || IsOpposite(selectedSign, key)
  }

  /** With no selection nothing is highlighted. */
  lemma NothingHighlightedWithoutSelection(key: string)
    ensures !ShouldHighlight(None, key)
  {
  }

  /** Selecting the sign at index i highlights exactly sectors i and (i + 6) mod 12. */
  lemma HighlightedSectors(i: nat, j: nat)
    requires i < |Keys| && j < |Keys|
    ensures ShouldHighlight(Some(Keys[i]), Keys[j]) <==> j == i || j == AcrossIndex(i)
  {
    KeysNonEmpty();
    OppositeAt(i);
    KeyInjective(i, j);
    KeyInjective(AcrossIndex(i), j);
    assert IsSelected(Some(Keys[i]), Keys[j]) <==> j == i;
    assert IsOpposite(Some(Keys[i]), Keys[j]) <==> j == AcrossIndex(i);
  }

  /** `isSelected` picks out the clicked sector alone. */
  lemma SelectedSectorOnly(i: nat, j: nat)
    requires i < |Keys| && j < |Keys|
    ensures IsSelected(Some(Keys[i]), Keys[j]) <==> j == i
    ensures !IsSelected(None, Keys[j])
  {
    KeyInjective(i, j);
  }

  /** `isOpposite` picks out the sector across the circle from the selection alone. */
  lemma OppositeSectorOnly(i: nat, j: nat)
    requires i < |Keys| && j < |Keys|
    ensures IsOpposite(Some(Keys[i]), Keys[j]) <==> j == AcrossIndex(i)
    ensures !IsOpposite(None, Keys[j])
  {
    KeysNonEmpty();
    OppositeAt(i);
    KeyInjective(AcrossIndex(i), j);
  }

  /** Selecting Aries highlights Aries and Libra and no other sector. */
  lemma AriesHighlightsLibra(j: nat)
    requires j < |Keys|
    ensures ShouldHighlight(Some("Aries"), Keys[j]) <==> Keys[j] == "Aries" || Keys[j] == "Libra"
  {
    KeysCanonical();
    HighlightedSectors(0, j);
    KeyInjective(0, j);
    KeyInjective(6, j);
  }

  /** Highlighting is symmetric between two catalog signs. */
  lemma HighlightSymmetric(a: string, b: string)
    requires a in Keys && b in Keys
    ensures ShouldHighlight(Some(a), b) <==> ShouldHighlight(Some(b), a)
  {
    OppositeInvolution(a);
    OppositeInvolution(b);
  }

  /** A selection that is not a catalog key highlights no sector and fails nowhere. */
  lemma UnknownSelectionHighlightsNothing(selected: string, key: string)
    requires selected !in Keys && key in Keys
    ensures !ShouldHighlight(Some(selected), key)
  {

  }

  /**
   * A placed user's marker: None for a user without a position (no marker is
   * drawn), otherwise whether it is highlighted, judged by the user's own sign.
   */
  function MarkerHighlight(selectedSign: Option<string>, user: User): Option<bool>
  {
    if user.position.None? then None else Some(ShouldHighlight(selectedSign, user.sign))
  }

  /** The marker rule ignores the sector recorded at the drop. */
  lemma MarkerIgnoresPlacedSector(selectedSign: Option<string>, user: User, sector: Option<string>)
    ensures MarkerHighlight(selectedSign, user) == MarkerHighlight(selectedSign, user.(placedOppositeSign := sector))
    ensures MarkerHighlight(selectedSign, user).None? <==> user.position.None?
  {
  }

  /**
   * A placed user's marker is highlighted exactly when the user's own sign is
   * the selected catalog sign or the one across the circle from it.
   */
  lemma MarkerRule(i: nat, j: nat, user: User)
    requires i < |Keys| && j < |Keys|
    requires user.position.Some? && user.sign == Keys[j]
    ensures MarkerHighlight(Some(Keys[i]), user) == Some(j == i || j == AcrossIndex(i))
    ensures MarkerHighlight(None, user) == Some(false)
  {
    HighlightedSectors(i, j);
  }

  /** The value a click on sign `key` passes to `onSignSelect`: a toggle. */
  function ClickSelection(selectedSign: Option<string>, key: string): (next: Option<string>)
    ensures next.None? <==> selectedSign == Some(key)
    ensures next.Some? ==> next == Some(key)
  {
    if IsSelected(selectedSign, key) then None else Some(key)
  }

  /** Two clicks on the same sign restore the selection only when it started out on that sign or cleared. */
  lemma ClickTwice(selectedSign: Option<string>, key: string)
    ensures ClickSelection(ClickSelection(selectedSign, key), key) ==
            (if selectedSign == Some(key) then Some(key) else None)
  {
  }
}
