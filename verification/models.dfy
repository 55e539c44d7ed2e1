/** The record shapes of the DNS tool: a provider record, the local file entry
    that wraps it, and the record shape the provider's API returns. */
module Models {

  datatype Option<T> = None | Some(value: T)

  /** A DNS record as the provider stores it; `id` is empty for a record that
      does not exist remotely yet. TTL is an unsigned integer in the source;
      it is only ever compared with 0 or set to 1, so `nat` loses nothing. */
  datatype Record = Record(
    id: string,
    rtype: string,
    name: string,
    content: string,
    proxiable: bool,
    proxied: bool,
    ttl: nat)

  /** The all-empty record, the zero value of the source's record struct. */
  const EmptyRecord: Record := Record("", "", "", "", false, false, 0)

  datatype Owner = Owner(username: string, email: string)

  /** One entry of the local records file: a record plus free-text metadata
      that no operation looks at. */
  datatype Records = Records(
    description: string,
    repo: string,
    owner: Owner,
    record: Record)

  /** A record as the provider's API returns it: the record fields plus zone
      and timestamp fields. */
  datatype ApiResult = ApiResult(
    id: string,
    zoneId: string,
    zoneName: string,
    name: string,
    rtype: string,
    content: string,
    proxiable: bool,
    proxied: bool,
    ttl: nat,
    createdOn: string,
    modifiedOn: string)

  /** Matches(pattern, name): does the regular expression `pattern` find a
      match anywhere in `name`. The regular-expression engine is not modelled;
      every operation that needs it takes one of these as a parameter. */
  type Matcher = (string, string) -> bool
}
