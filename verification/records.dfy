/**
  The records the tool passes around: one port connection of an instance, and the
  parameter and port tables of a module (both insertion-ordered dictionaries).
 */
module Records {
  import opened OrderedMaps

  /** `{'instp': ..., 'slice': ..., 'type': ..., 'dir': ...}`: the instance-side signal name,
      its bit range (`""` or `"[msb:lsb]"`), the declaration kind (`W` wire, `P` port, or `""`)
      and the direction (`I`, `O`, `IO`, or `""`). */
  datatype PortBinding = PortBinding(instp: string, slice: string, kind: string, dir: string)

  /** Formal port name to its binding. */
  type PortTable = OMap<string, PortBinding>

  /** Parameter name to its value text. */
  type ParamTable = OMap<string, string>
}
