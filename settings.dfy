/**
  The radio-wide settings: ten single-byte fields at 0x2B0 and a flag byte plus
  three single-byte fields at 0x3C0, read into values the host can show.
 */
module Settings {
  import opened Wrappers
  import opened Bcd
  import opened Layout

  const VoiceList: seq<string> := ["English", "Chinese"]
  const SidekeyFunctionList: seq<string> := ["Off", "Monitor", "Transmit Power", "Alarm"]
  const TimeoutTimerList: seq<string> := ["Off", "30 seconds", "60 seconds", "90 seconds",
                                          "120 seconds", "150 seconds", "180 seconds",
                                          "210 seconds", "240 seconds", "270 seconds",
                                          "300 seconds"]
  const VoxLevelMax: nat := 4
  const SquelchLevelMax: nat := 9

  /** List settings are held as the index into their list. */
  datatype Settings = Settings(
    voiceprompt: bool, voicelanguage: nat, scan: bool, vox: bool, voxlevel: nat,
    voxinhibitonrx: bool, lowvolinhibittx: bool, highvolinhibittx: bool, alarm: bool,
    fmradio: bool, beep: bool, batterysaver: bool, squelchlevel: nat,
    sidekeyfunction: nat, timeouttimer: nat)

  /** The exceptions the settings objects raise for a value outside their domain. */
  datatype SettingError =
    | BadVoiceLanguage(raw: byte)
    | BadVoxLevel(raw: byte)
    | BadSquelchLevel(raw: byte)
    | BadSidekeyFunction(raw: byte)
    | BadTimeoutTimer(raw: byte)

  /** The 14 bytes the settings are read from. */
  predicate IsSettingsByte(a: nat)
  {
    SettingsBase <= a < SettingsBase + 10 || Settings2Base <= a < Settings2Base + 4
  }

  /** A byte read as a Python boolean: anything but zero is true. */
  function Flag(b: byte): bool { b != 0 }

  /** Decodes both settings blocks; the first field found outside its domain, in
      the order the fields are built, is the error. */
  function GetSettings(image: Image): (r: Result<Settings, SettingError>)
    ensures r.Ok? ==> r.value.voicelanguage < |VoiceList| && r.value.voxlevel <= VoxLevelMax
                      && r.value.squelchlevel <= SquelchLevelMax
                      && r.value.sidekeyfunction < |SidekeyFunctionList|
                      && r.value.timeouttimer < |TimeoutTimerList|
  {
    var s, t := SettingsBase, Settings2Base;
    var flags2 := Bits(image[t], 8);
    if image[s + 1] >= |VoiceList| then Err(BadVoiceLanguage(image[s + 1]))
    else if image[s + 4] > VoxLevelMax then Err(BadVoxLevel(image[s + 4]))
    else if image[t + 1] > SquelchLevelMax then Err(BadSquelchLevel(image[t + 1]))
    else if image[t + 2] >= |SidekeyFunctionList| then Err(BadSidekeyFunction(image[t + 2]))
    else if image[t + 3] >= |TimeoutTimerList| then Err(BadTimeoutTimer(image[t + 3]))
    else Ok(Settings(
      voiceprompt := Flag(image[s]),
      voicelanguage := image[s + 1],
      scan := Flag(image[s + 2]),
      vox := Flag(image[s + 3]),
      voxlevel := image[s + 4],
      voxinhibitonrx := Flag(image[s + 5]),
      lowvolinhibittx := Flag(image[s + 6]),
      highvolinhibittx := Flag(image[s + 7]),
      alarm := Flag(image[s + 8]),
      fmradio := Flag(image[s + 9]),
      beep := flags2[7],
      batterysaver := flags2[6],
      squelchlevel := image[t + 1],
      sidekeyfunction := image[t + 2],
      timeouttimer := image[t + 3]))
  }

  /** The settings decode exactly when every list index and integer is in its domain. */
  lemma SettingsValidity(image: Image)
    ensures GetSettings(image).Ok? <==>
      image[SettingsBase + 1] < 2 && image[SettingsBase + 4] <= 4 && image[Settings2Base + 1] <= 9
      && image[Settings2Base + 2] < 4 && image[Settings2Base + 3] < 11
  {
  }

  /** Only the 14 settings bytes are read: images that agree on them decode alike. */
  lemma SettingsFrame(a: Image, b: Image)
    requires forall i :: 0 <= i < MemSize && IsSettingsByte(i) ==> a[i] == b[i]
    ensures GetSettings(a) == GetSettings(b)
  {
  }

  /** The beep flag is the most significant bit of the byte at 0x3C0. */
  lemma BeepIsTopBit(image: Image)
    requires GetSettings(image).Ok?
    ensures GetSettings(image).value.beep <==> image[Settings2Base] >= 128
  {
    assert Pow2(7) == 128 && Pow2(8) == 256;
    TopBit(image[Settings2Base], 8);
  }
}
