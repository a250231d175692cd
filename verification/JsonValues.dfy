/** JSON documents; the order of an object's fields plays no part. */
module JsonValues {
  datatype Json =
    | Null
    | Bool(b: bool)
    | Number(digits: string)
    | String(text: string)
    | Array(items: seq<Json>)
    | Object(fields: map<string, Json>)

  type Fields = map<string, Json>
}
