/** JSON as a tree with unique plain keys, which is how the EIP-712 code uses it. */
module Json {
  datatype Json =
    | Null
    | Bool(b: bool)
    | Number(n: int)
    | String(s: string)
    | Array(elems: seq<Json>)
    | Object(fields: map<string, Json>)
}
