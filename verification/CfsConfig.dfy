/** Status codes, size limits, platform constants and the constant tables (default platform). */
module CfsConfig {
  import opened CTypes
  import opened CString

  const CFE_SUCCESS := 0
  const OS_INVALID_POINTER := -2
  const CFS_MM_ERROR_INVALID_MEMTYPE := -1
  const CFS_MM_ERROR_INVALID_SIZE := -2
  const CFS_MM_ERROR_INVALID_ADDR := -3
  const CFS_MM_ERROR_INVALID_FILE := -4
  const CFS_MM_ERROR_ALIGNMENT := -9
  const CFS_MM_ERROR_PERMISSION := -10

  const MM_RAM: uint8 := 1
  const MM_EEPROM: uint8 := 2
  const MM_FLASH: uint8 := 3

  const OS_MAX_PATH_LEN := 64
  const OS_MAX_API_NAME := 20
  const MM_MAX_LOAD_FILE_DATA_RAM: uint32 := 1024 * 1024
  const MM_MAX_LOAD_FILE_DATA_EEPROM: uint32 := 128 * 1024
  const CFS_DEFAULT_RAM_ADDR: uint64 := 0x20000000
  const CFS_DEFAULT_EEPROM_ADDR: uint64 := 0x08080000
  const CFS_MEMORY_ALIGNMENT := 4

  // The load limit both the decoder and the simulation apply to a memory type.
  function MaxLoadSize(memType: uint8): (max: uint32)
    ensures max > 0
  {
    if memType == MM_RAM then MM_MAX_LOAD_FILE_DATA_RAM else MM_MAX_LOAD_FILE_DATA_EEPROM
  }

  function BaseAddress(memType: uint8): uint64 {
    if memType == MM_RAM then CFS_DEFAULT_RAM_ADDR else CFS_DEFAULT_EEPROM_ADDR
  }

  const NUM_VALID_SYMBOLS := 24
  const NUM_VALID_PATHS := 15

  const VALID_SYMBOLS: seq<string> := [
    "CFE_ES_Global", "CFE_TBL_Global", "CFE_EVS_Global", "CFE_SB_Global", "CFE_TIME_Global",
    "MM_AppData", "MM_ResetArea", "MM_CmdCounter", "MM_ErrCounter",
    "CS_AppData", "DS_AppData", "FM_AppData", "HK_AppData", "LC_AppData", "MD_AppData", "SC_AppData",
    "SCH_AppData",
    "OS_VolumeTable", "PSP_MemoryTable", "CFE_PSP_MemoryTable",
    "BSP_RAM_START", "BSP_RAM_END", "BSP_EEPROM_START", "BSP_EEPROM_END"]

  const VALID_PATHS: seq<string> := [
    "/cf/apps/", "/cf/download/", "/cf/upload/", "/cf/log/", "/cf/tmp/",
    "/ram/", "/rom/", "/vol/",
    "/data/tables/", "/data/scripts/", "/data/config/",
    "/mission/apps/", "/mission/data/",
    "/platform/boot/", "/platform/config/"]

  lemma SymbolLength(i: nat)
    requires i < |VALID_SYMBOLS|
    ensures |VALID_SYMBOLS| == 24
    ensures 10 <= |VALID_SYMBOLS[i]| <= OS_MAX_API_NAME - 1
  {
  }

  lemma FirstSymbols(i: nat)
    requires i < 12
    ensures NoNul(VALID_SYMBOLS[i])
  {
  }

  lemma LastSymbols(i: nat)
    requires 12 <= i < |VALID_SYMBOLS|
    ensures NoNul(VALID_SYMBOLS[i])
  {
  }

  // Every table symbol fits SymName with its NUL; the longest has 19 characters.
  lemma SymbolFacts(i: nat)
    requires i < |VALID_SYMBOLS|
    ensures |VALID_SYMBOLS| == 24
    ensures 10 <= |VALID_SYMBOLS[i]| <= OS_MAX_API_NAME - 1 && NoNul(VALID_SYMBOLS[i])
  {
    hide VALID_SYMBOLS;
    SymbolLength(i);
    if i < 12 {
      FirstSymbols(i);
    } else {
      LastSymbols(i);
    }
  }

  lemma PathShape(i: nat)
    requires i < |VALID_PATHS|
    ensures |VALID_PATHS| == 15
    ensures var p := VALID_PATHS[i]; 5 <= |p| <= 17 && p[0] == '/' && p[1] != '/' && p[|p| - 1] == '/'
  {
  }

  lemma PathCharacters(i: nat)
    requires i < |VALID_PATHS|
    ensures var p := VALID_PATHS[i]; NoNul(p) && '.' !in p && '\\' !in p
  {
  }

  lemma PathFacts(i: nat)
    requires i < |VALID_PATHS|
    ensures |VALID_PATHS| == 15
    ensures var p := VALID_PATHS[i];
      5 <= |p| <= 17 && NoNul(p) && '.' !in p && '\\' !in p && p[0] == '/' && p[1] != '/' && p[|p| - 1] == '/'
  {
    hide VALID_PATHS;
    PathShape(i);
    PathCharacters(i);
  }

  // Six characters tell the table symbols apart.
  lemma SymbolsDistinct(i: nat, j: nat)
    requires i < |VALID_SYMBOLS| && j < |VALID_SYMBOLS| && VALID_SYMBOLS[i] == VALID_SYMBOLS[j]
    ensures i == j
  {
    var s, t := VALID_SYMBOLS[i], VALID_SYMBOLS[j];
    assert |s| > 9 && |t| > 9;
    assert s[0] == t[0] && s[1] == t[1] && s[4] == t[4] && s[5] == t[5] && s[8] == t[8] && s[9] == t[9];
  }

  lemma TableSizes()
    ensures |VALID_SYMBOLS| == NUM_VALID_SYMBOLS && |VALID_PATHS| == NUM_VALID_PATHS
  {
  }


  // CFS_GetRandomSymbol, and the decoder's choice of a symbol
  function SymbolAt(seed: nat): (symbol: string)
    ensures 10 <= |symbol| < OS_MAX_API_NAME && NoNul(symbol)
  {
    SymbolFacts(seed % NUM_VALID_SYMBOLS);
    VALID_SYMBOLS[seed % NUM_VALID_SYMBOLS]
  }

  // CFS_GetRandomPath, and the decoder's choice of a path
  function PathAt(seed: nat): (path: string)
    ensures 5 <= |path| <= 17 && NoNul(path)
  {
    PathFacts(seed % NUM_VALID_PATHS);
    VALID_PATHS[seed % NUM_VALID_PATHS]
  }

  // Where to look, given the second character of a table path, to tell it from the others.
  function Discriminator(c: char): nat {
    match c
    case 'c' => 4
    case 'r' => 2
    case 'd' => 6
    case 'm' => 9
    case 'p' => 10
    case _ => 1
  }

  function PathNumber(c: char, d: char): int {
    match c
    case 'c' => (match d case 'a' => 0 case 'd' => 1 case 'u' => 2 case 'l' => 3 case _ => 4)
    case 'r' => (if d == 'a' then 5 else 6)
    case 'v' => 7
    case 'd' => (match d case 't' => 8 case 's' => 9 case _ => 10)
    case 'm' => (if d == 'a' then 11 else 12)
    case _ => (if d == 'b' then 13 else 14)
  }

  // Two characters of a table path determine its index.
  lemma PathNumbered(i: nat)
    requires i < |VALID_PATHS|
    ensures var p := VALID_PATHS[i];
      |p| > 1 && Discriminator(p[1]) < |p| && PathNumber(p[1], p[Discriminator(p[1])]) == i
  {
  }

  // No table path is a prefix of another, so a file name matches at most one of them.
  lemma PathsPrefixFree(i: nat, j: nat, name: string)
    requires i < |VALID_PATHS| && j < |VALID_PATHS|
    requires VALID_PATHS[i] <= name && VALID_PATHS[j] <= name
    ensures i == j
  {
    hide VALID_PATHS, PathNumber, Discriminator;
    PathNumbered(i);
    PathNumbered(j);
  }
}
