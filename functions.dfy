/** GL commands and their parameters (functions.go). */
module Functions {
  import opened Types
  import Util

  /** A parameter of a command: its C name and type. */
  datatype Parameter = Parameter(name: string, paramType: Type)

  /** A command: its C name, its Go name without the API prefix, its
      parameters and its return type. */
  datatype Function = Function(name: string, goName: string, parameters: seq<Parameter>, returnType: Type)

  /** CName: the parameter name as C sees it, which is always the name
      itself. */
  function CName(p: Parameter): (r: string)
    ensures r == p.name
  {
    Util.RenameIfReservedCWord(p.name)
  }

  /** GoName: the parameter name with the six clashing Go words renamed;
      the result is never one of them. */
  function GoName(p: Parameter): (r: string)
    ensures p.name in Util.ReservedGoWords ==> r == "gl" + p.name
    ensures p.name !in Util.ReservedGoWords ==> r == p.name
    ensures r !in Util.ReservedGoWords
  {
    Util.RenameIfReservedGoWordIsSafe(p.name);
    Util.RenameIfReservedGoWord(p.name)
  }
}
