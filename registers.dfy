/** The command codes, the register addresses and their names (main.py:23-43, 86-87). */
module Registers {

  // Commands
  const GetId: nat := 0x4
  const Get: nat := 0x7
  const Set: nat := 0x8

  // Registers
  const DeviceModeRegister: nat := 0x0200
  const DeviceStateRegister: nat := 0x0201
  const BatteryFloatVoltageRegister: nat := 0xEDF6
  const BatteryMaximumCurrentRegister: nat := 0xEDF0
  const ChargerVoltageRegister: nat := 0xEDD5
  const DeviceOffReasonRegister: nat := 0x0207

  /** The fixed address-to-name table `registers`. */
  const RegisterNames: map<int, string> := map[
    0x0200 := "DeviceModeRegister",
    0x0201 := "DeviceStateRegister",
    0xEDF6 := "BatteryFloatVoltageRegister",
    0xEDF0 := "BatteryMaximumCurrentRegister",
    0xEDD5 := "ChargerVoltageRegister",
    0x0207 := "DeviceOffReasonRegister"
  ]

  /** registers.get(address, 'Unknown'). */
  function LookupCommandName(address: int): (name: string)
    ensures address in RegisterNames ==> name == RegisterNames[address]
    ensures name == "Unknown" <==> address !in RegisterNames
  {
    if address in RegisterNames then RegisterNames[address] else "Unknown"
  }

  /** Each register constant is named by its own identifier. */
  lemma LookupConstants()
    ensures LookupCommandName(DeviceModeRegister) == "DeviceModeRegister"
    ensures LookupCommandName(DeviceStateRegister) == "DeviceStateRegister"
    ensures LookupCommandName(BatteryFloatVoltageRegister) == "BatteryFloatVoltageRegister"
    ensures LookupCommandName(BatteryMaximumCurrentRegister) == "BatteryMaximumCurrentRegister"
    ensures LookupCommandName(ChargerVoltageRegister) == "ChargerVoltageRegister"
    ensures LookupCommandName(DeviceOffReasonRegister) == "DeviceOffReasonRegister"
  {
  }

  /** Exactly six addresses are known; 0x9999, like every other address, is "Unknown". */
  lemma LookupUnknown(address: int)
    ensures LookupCommandName(address) != "Unknown" <==>
      address in {0x0200, 0x0201, 0x0207, 0xEDD5, 0xEDF0, 0xEDF6}
    ensures LookupCommandName(0x9999) == "Unknown"
  {
  }

  /** No two addresses share a name, so a name identifies its register. */
  lemma LookupInjective(a: int, b: int)
    requires a in RegisterNames && b in RegisterNames
    ensures LookupCommandName(a) == LookupCommandName(b) ==> a == b
  {
  }
}
