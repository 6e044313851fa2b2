/** The types of liblwgeom.h, and which of them may be parts of which. */
module GeomTypes {
  const POINTTYPE := 1
  const LINETYPE := 2
  const POLYGONTYPE := 3
  const MULTIPOINTTYPE := 4
  const MULTILINETYPE := 5
  const MULTIPOLYGONTYPE := 6
  const COLLECTIONTYPE := 7
  const CIRCSTRINGTYPE := 8
  const COMPOUNDTYPE := 9
  const CURVEPOLYTYPE := 10
  const MULTICURVETYPE := 11
  const MULTISURFACETYPE := 12
  const POLYHEDRALSURFACETYPE := 13
  const TRIANGLETYPE := 14
  const TINTYPE := 15
  const ELLIPSETYPE := 16
  const BEZIERTYPE := 17

  /** `lwtype_is_collection`. */
  predicate IsCollection(t: nat) {
    t in {MULTIPOINTTYPE, MULTILINETYPE, MULTIPOLYGONTYPE, COLLECTIONTYPE, COMPOUNDTYPE, CURVEPOLYTYPE, MULTICURVETYPE,
          MULTISURFACETYPE, POLYHEDRALSURFACETYPE, TINTYPE}
  }

  predicate IsSimple(t: nat) {
    t in {POINTTYPE, LINETYPE, CIRCSTRINGTYPE, TRIANGLETYPE, BEZIERTYPE}
  }

  /** `lwcollection_allows_subtype`. */
  predicate AllowsSubtype(t: nat, sub: nat) {
    || t == COLLECTIONTYPE
    || (t == MULTIPOINTTYPE && sub == POINTTYPE)
    || (t == MULTILINETYPE && sub == LINETYPE)
    || (t == MULTIPOLYGONTYPE && sub == POLYGONTYPE)
    || (t == COMPOUNDTYPE && sub in {LINETYPE, CIRCSTRINGTYPE, ELLIPSETYPE, BEZIERTYPE})
    || (t in {CURVEPOLYTYPE, MULTICURVETYPE}
        && sub in {CIRCSTRINGTYPE, LINETYPE, COMPOUNDTYPE, ELLIPSETYPE, BEZIERTYPE})
    || (t == MULTISURFACETYPE && sub in {POLYGONTYPE, CURVEPOLYTYPE})
    || (t == POLYHEDRALSURFACETYPE && sub == POLYGONTYPE)
    || (t == TINTYPE && sub == TRIANGLETYPE)
  }

  /** `lwtype_get_collectiontype`. */
  function CollectionType(t: nat): nat {
    if t == POINTTYPE then MULTIPOINTTYPE
    else if t == LINETYPE then MULTILINETYPE
    else if t == POLYGONTYPE then MULTIPOLYGONTYPE
    else if t == CIRCSTRINGTYPE || t == COMPOUNDTYPE then MULTICURVETYPE
    else if t == CURVEPOLYTYPE then MULTISURFACETYPE
    else if t == TRIANGLETYPE then TINTYPE
    else COLLECTIONTYPE
  }

  predicate IsType(t: nat) {
    POINTTYPE <= t <= BEZIERTYPE
  }

  /** Every type is of one kind. */
  lemma OneKind(t: nat)
    ensures IsType(t) <==> IsSimple(t) || t == POLYGONTYPE || t == ELLIPSETYPE || IsCollection(t)
    ensures IsCollection(t) ==> !IsSimple(t) && t != POLYGONTYPE && t != ELLIPSETYPE
  {
  }

  /** The collections are the types that may have parts. */
  lemma CollectionsHaveParts(t: nat)
    ensures IsCollection(t) <==> exists sub :: IsType(sub) && AllowsSubtype(t, sub)
  {
    if IsCollection(t) {
      var sub := if t == MULTIPOINTTYPE then POINTTYPE
                 else if t == TINTYPE then TRIANGLETYPE
                 else if t in {MULTIPOLYGONTYPE, MULTISURFACETYPE, POLYHEDRALSURFACETYPE} then POLYGONTYPE
                 else LINETYPE;
      assert IsType(sub) && AllowsSubtype(t, sub);
    }
  }

  /** The collection of a type is one, and takes it. */
  lemma TakesItsMembers(t: nat)
    ensures IsCollection(CollectionType(t)) && AllowsSubtype(CollectionType(t), t)
    ensures CollectionType(t) != COLLECTIONTYPE <==>
            t in {POINTTYPE, LINETYPE, POLYGONTYPE, CIRCSTRINGTYPE, COMPOUNDTYPE, CURVEPOLYTYPE, TRIANGLETYPE}
  {
  }

  /** Curves are what a compound curve is made of. A multi-curve, and likewise the rings of a curve polygon, may be
      compound too. Surfaces are polygons with straight or with curved rings. */
  lemma PartsByDimension(sub: nat)
    ensures AllowsSubtype(COMPOUNDTYPE, sub) <==> sub in {LINETYPE, CIRCSTRINGTYPE, ELLIPSETYPE, BEZIERTYPE}
    ensures AllowsSubtype(MULTICURVETYPE, sub) <==> AllowsSubtype(COMPOUNDTYPE, sub) || sub == COMPOUNDTYPE
    ensures AllowsSubtype(CURVEPOLYTYPE, sub) <==> AllowsSubtype(MULTICURVETYPE, sub)
    ensures AllowsSubtype(MULTISURFACETYPE, sub) <==> AllowsSubtype(MULTIPOLYGONTYPE, sub) || sub == CURVEPOLYTYPE
    ensures AllowsSubtype(POLYHEDRALSURFACETYPE, sub) <==> AllowsSubtype(MULTIPOLYGONTYPE, sub)
    ensures AllowsSubtype(COLLECTIONTYPE, sub)
  {
  }
}
