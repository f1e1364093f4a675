/** Protocol constants (the operation codes of jute/constants.ts and the
    data size limit of constants.ts) and the field tables of the catalog
    records the core builds and reads. The catalog itself
    (`./specification`) is not part of this model; the tables below follow
    the field order the code uses (MultiHeader's `type`, `done`, `err` from
    its constructor calls) and ZooKeeper's published record layouts. */
module Protocol {
  import opened Wire
  import opened JuteCodec

  // Operation codes (jute/constants.ts:4-25)
  const NOTIFICATION: int32 := 0
  const CREATE: int32 := 1
  const DELETE: int32 := 2
  const EXISTS: int32 := 3
  const GET_DATA: int32 := 4
  const SET_DATA: int32 := 5
  const GET_ACL: int32 := 6
  const SET_ACL: int32 := 7
  const GET_CHILDREN: int32 := 8
  const SYNC: int32 := 9
  const PING: int32 := 11
  const GET_CHILDREN2: int32 := 12
  const CHECK: int32 := 13
  const MULTI: int32 := 14
  const AUTH: int32 := 100
  const SET_WATCHES: int32 := 101
  const SASL: int32 := 102
  const CREATE_SESSION: int32 := -10
  const CLOSE_SESSION: int32 := -11
  const ERROR: int32 := -1

  /** constants.ts:8, one mebibyte. */
  const DataSizeLimit: nat := 1048576

  const IdSpec: seq<FieldSpec> := [FieldSpec("scheme", UString), FieldSpec("id", UString)]
  const AclSpec: seq<FieldSpec> := [FieldSpec("perms", Int), FieldSpec("id", Data("Id", IdSpec))]
  const StatSpec: seq<FieldSpec> := [
    FieldSpec("czxid", Long), FieldSpec("mzxid", Long), FieldSpec("ctime", Long), FieldSpec("mtime", Long),
    FieldSpec("version", Int), FieldSpec("cversion", Int), FieldSpec("aversion", Int),
    FieldSpec("ephemeralOwner", Long), FieldSpec("dataLength", Int), FieldSpec("numChildren", Int),
    FieldSpec("pzxid", Long)]

  const RequestHeaderSpec: seq<FieldSpec> := [FieldSpec("xid", Int), FieldSpec("type", Int)]
  const MultiHeaderSpec: seq<FieldSpec> := [FieldSpec("type", Int), FieldSpec("done", Boolean), FieldSpec("err", Int)]

  const CreateRequestSpec: seq<FieldSpec> := [
    FieldSpec("path", UString), FieldSpec("data", Buffer),
    FieldSpec("acl", Vector(Data("ACL", AclSpec))), FieldSpec("flags", Int)]
  const DeleteRequestSpec: seq<FieldSpec> := [FieldSpec("path", UString), FieldSpec("version", Int)]
  const SetDataRequestSpec: seq<FieldSpec> := [FieldSpec("path", UString), FieldSpec("data", Buffer), FieldSpec("version", Int)]
  const CheckVersionRequestSpec: seq<FieldSpec> := [FieldSpec("path", UString), FieldSpec("version", Int)]

  const CreateResponseSpec: seq<FieldSpec> := [FieldSpec("path", UString)]
  const SetDataResponseSpec: seq<FieldSpec> := [FieldSpec("stat", Data("Stat", StatSpec))]
  const ErrorResponseSpec: seq<FieldSpec> := [FieldSpec("err", Int)]
}
