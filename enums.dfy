/** An enumerated GL constant of the registry (enums.go). */
module Enums {

  /** Name is the raw registry name, GoName the name with its API prefix
      stripped, and Value the registry's value text unchanged. */
  datatype Enum = Enum(name: string, goName: string, value: string)
}
