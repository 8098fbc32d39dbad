/**
  The shape of the e-text link data (`work_id -> {collection -> entry}`) that the server loads
  and the browser receives, shared by the summary, the collection queries and the menu builder.
*/
module EtextLinks {

  /** The links of one sub-category: normally a JSON array, a lone string where the data has one. */
  datatype Links = LinkList(items: seq<string>) | LinkText(text: string)

  /**
    One collection's entry for one work: a flat list of links, an object of sub-categories
    (in key order), or some other JSON value, here a string.
  */
  datatype Entry = Flat(links: seq<string>) | Grouped(groups: seq<(string, Links)>) | Scalar(text: string)

  /** One work's collections, as a JSON object in key order. */
  type Collections = seq<(string, Entry)>

  /**
    The whole link file in key order, as Python's `dict` iterates it. A `dict` holds each work id
    once; the statements about the summary hold for every sequence, repeated ids included, so
    they hold in particular for the tables a `dict` gives.
  */
  type OrderedTable = seq<(string, Collections)>

  /** The whole link file as a lookup table: `work_id -> collection -> entry`. */
  type LinkTable = map<string, map<string, Entry>>
}
