/** Tables and their columns, as the lake has them and as the ingester remembers them. */
module Catalogs {
  import opened Octets

  type Name = Bytes
  type Columns = set<Name>
  type Catalog = map<Name, Columns>

  const TS: Name := [116, 115]
  const DATE: Name := [100, 97, 116, 101]

  /** Tables and columns are never dropped. */
  ghost predicate Grows(a: Catalog, b: Catalog) {
    forall t :: t in a ==> t in b && a[t] <= b[t]
  }
}
