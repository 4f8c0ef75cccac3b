/**
 * Time-zone catalog entries. A zone is resolved to the fixed UTC offset it
 * has at New Year (summer time in the southern hemisphere); the zone
 * database itself and its daylight-saving rules are not modelled.
 */
module Zones {

  /** A selectable zone: its display label, its zone name, and its UTC offset in minutes at New Year. */
  datatype ZoneEntry = ZoneEntry(labelText: string, value: string, offsetMinutes: int)
}
