/** Ref update commands, as the Git client sends them. */
module Commands {
  datatype ReceiveCommand = ReceiveCommand(oldOid: string, newOid: string, ref: string)

  const ZERO_OID: string := "0000000000000000000000000000000000000000"
}
