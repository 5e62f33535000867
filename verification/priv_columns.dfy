/** From a requested privilege to the catalog columns it sets to 'Y'.
    Both scopes consult the same privilege-to-column map; they differ only in
    what `ALL` expands to. */
module PrivColumns {
  import opened GrantTypes

  /** Global scope: `ALL` sets every column the map knows of; any other kind
      sets its one mapped column, and an unmapped kind is an error. */
  function ComposeGlobalPrivUpdate(pt: PrivTables, priv: PrivilegeType): (r: Result<set<string>>)
    ensures priv == pt.allPriv ==> r.Success?
    ensures priv == pt.allPriv && r.Success? ==>
      forall c :: c in r.value <==> exists p :: p in pt.priv2UserCol && pt.priv2UserCol[p] == c
    ensures priv != pt.allPriv ==>
      if priv in pt.priv2UserCol then r == Success({pt.priv2UserCol[priv]})
      else r == Failure(UnknownPriv(priv))
  {
    if priv == pt.allPriv then
      Success(pt.priv2UserCol.Values)
    else if priv in pt.priv2UserCol then
      Success({pt.priv2UserCol[priv]})
    else
      Failure(UnknownPriv(priv))
  }

  /** The assignment list the engine builds for a global `ALL` by ranging
      over the privilege map. The map's iteration order is unspecified, so the
      next entry is picked arbitrarily; whatever the order, every entry
      contributes exactly one assignment and the columns assigned are exactly
      the map's values. */
  method GlobalAllAssignments(m: map<PrivilegeType, string>) returns (assigns: seq<string>)
    ensures |assigns| == |m|
    ensures ColumnsOf(assigns) == m.Values
  {
    assigns := [];
    var rest := m.Keys;
    while rest != {}
      invariant rest <= m.Keys
      invariant |assigns| + |rest| == |m|
      invariant forall c :: c in assigns <==> exists p :: p in m && p !in rest && m[p] == c
      decreases rest
    {
      var p :| p in rest;
      assigns := assigns + [m[p]];
      rest := rest - {p};
    }
  }

  /** Database-scope `ALL`: each kind of `ps`, in order, through the map.
      Fails, naming the `ALL` privilege, as soon as one kind is unmapped. */
  function MapDBPrivs(pt: PrivTables, ps: seq<PrivilegeType>): (r: Result<seq<string>>)
    ensures r.Success? <==> forall i :: 0 <= i < |ps| ==> ps[i] in pt.priv2UserCol
    ensures r.Success? ==> |r.value| == |ps|
    ensures r.Success? ==> forall i :: 0 <= i < |ps| ==> r.value[i] == pt.priv2UserCol[ps[i]]
    ensures r.Failure? ==> r.error == UnknownDBPriv(pt.allPriv)
  {
    if |ps| == 0 then Success([])
    else if ps[0] !in pt.priv2UserCol then Failure(UnknownDBPriv(pt.allPriv))
    else
      match MapDBPrivs(pt, ps[1..])
      case Failure(e) => Failure(e)
      case Success(tail) => Success([pt.priv2UserCol[ps[0]]] + tail)
  }

  /** Database scope: `ALL` expands through the database privilege list; any
      other kind sets its one mapped column, and an unmapped kind is an error. */
  function ComposeDBPrivUpdate(pt: PrivTables, priv: PrivilegeType): (r: Result<seq<string>>)
    ensures priv == pt.allPriv ==>
      (r.Success? <==> forall i :: 0 <= i < |pt.allDBPrivs| ==> pt.allDBPrivs[i] in pt.priv2UserCol)
    ensures priv == pt.allPriv && r.Success? ==>
      |r.value| == |pt.allDBPrivs| &&
      forall i :: 0 <= i < |pt.allDBPrivs| ==> r.value[i] == pt.priv2UserCol[pt.allDBPrivs[i]]
    ensures priv == pt.allPriv && r.Failure? ==> r.error == UnknownDBPriv(priv)
    ensures priv != pt.allPriv ==>
      if priv in pt.priv2UserCol then r == Success([pt.priv2UserCol[priv]])
      else r == Failure(UnknownPriv(priv))
  {
    if priv == pt.allPriv then
      MapDBPrivs(pt, pt.allDBPrivs)
    else if priv in pt.priv2UserCol then
      Success([pt.priv2UserCol[priv]])
    else
      Failure(UnknownPriv(priv))
  }
}
