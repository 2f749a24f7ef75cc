/** JSON values as the service holds them (booster and cppcms, `json::value`). */
module JsonValues {
  datatype Json =
    | Undefined | Null | Boolean(b: bool) | Number(r: real) | String(s: string)
    | Array(items: seq<Json>)
    | Object(members: seq<Member>)

  datatype Member = Member(key: string, value: Json)
}
