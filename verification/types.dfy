/** The record shapes of the dashboard's address list. */
module Types {
  import opened Wrappers

  /** One entry as the list endpoint delivers it, before it is numbered.
      `asterix` and `power` are numeric strings that may be `null`. */
  datatype RawItem = RawItem(
    ownerAddress: string,
    point: string,
    asterix: Option<string>,
    power: Option<string>)

  /** One entry of the loaded list: the delivered fields plus its 1-based
      position in fetch order. */
  datatype ListItem = ListItem(
    index: nat,
    ownerAddress: string,
    point: string,
    asterix: Option<string>,
    power: Option<string>)
  {
    /** The fields the entry was delivered with. */
    function Raw(): RawItem {
      RawItem(ownerAddress, point, asterix, power)
    }
  }

  /** One entry as displayed: a list entry plus its abbreviated address. */
  datatype DerivedItem = DerivedItem(
    index: nat,
    ownerAddress: string,
    point: string,
    asterix: Option<string>,
    power: Option<string>,
    shortAddress: string)
  {
    /** The list entry this display entry was derived from. */
    function Base(): ListItem {
      ListItem(index, ownerAddress, point, asterix, power)
    }
  }

  /** A raw entry numbered with `n`. */
  function Numbered(item: RawItem, n: nat): (r: ListItem)
    ensures r.index == n && r.Raw() == item
  {
    ListItem(n, item.ownerAddress, item.point, item.asterix, item.power)
  }

  /** The list entries a display list was derived from, in order. */
  function Bases(ds: seq<DerivedItem>): (r: seq<ListItem>)
    ensures |r| == |ds|
    ensures forall k :: 0 <= k < |ds| ==> r[k] == ds[k].Base()
  {
    seq(|ds|, k requires 0 <= k < |ds| => ds[k].Base())
  }

}
