/** The values `login_after` works on: the plugin's configuration (read once by
    `init()`), a directory entry and an identity record. */
module AliasSyncTypes {

  /** The `mail` section of the configuration. */
  datatype MailConfig = MailConfig(
    searchDomain: string,
    replaceDomain: bool,
    findDomain: string,
    separator: string)

  /** The `ldap` section of the configuration that `login_after` reads. Attribute
      names are lower case, as `init()` leaves them. */
  datatype LdapConfig = LdapConfig(
    baseDn: string,
    filter: string,
    attrMail: string,
    attrName: string,
    attrOrg: string,
    attrReply: string,
    attrBcc: string,
    attrSig: string,
    mailIgnore: seq<string>)

  datatype Config = Config(mail: MailConfig, ldap: LdapConfig)

  /** One entry of `ldap_get_entries`: lower-case attribute name to its values. */
  type Entry = map<string, seq<string>>

  /** The identity array built at lines 252-260; `htmlSignature` is 1 or 0. */
  datatype Identity = Identity(
    email: string,
    name: string,
    organization: string,
    replyTo: string,
    bcc: string,
    signature: string,
    htmlSignature: int)
}
