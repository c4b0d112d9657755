/** The module overload of `FindPattern`: resolve a loaded module's image
    range through the OS, refuse implausible ranges, then scan the image. */
module ModuleScan {
  import opened Machine
  import opened PatternScan

  /** 2^32: `MODULEINFO::SizeOfImage` is a DWORD. */
  const DWORD_RANGE: int := 0x1_0000_0000

  type DWord = d: int | 0 <= d < DWORD_RANGE

  /** The two `MODULEINFO` fields the scan uses. */
  datatype ModuleInfo = ModuleInfo(baseOfDll: Addr, sizeOfImage: DWord)

  /** The loaded modules by name, standing for `GetModuleHandleA` and
      `GetModuleInformation`: a name that is a key is one the handle lookup
      finds; its value is the module information, `None` when that query
      fails. */
  type ModuleTable = map<string, Option<ModuleInfo>>

  /** The guard chain of the module overload: the image range [start, end) it
      scans, or `None` when it returns 0 without scanning. The wrapped
      `end <= start` test is exactly "empty image or end past 2^64". */
  function ImageRange(modules: ModuleTable, moduleName: Option<string>): (r: Option<(Addr, Addr)>)
    ensures r.Some? <==>
      moduleName.Some? && moduleName.value in modules && modules[moduleName.value].Some? &&
      var info := modules[moduleName.value].value;
      MIN_VALID_ADDRESS <= info.baseOfDll && 0 < info.sizeOfImage &&
      info.baseOfDll + info.sizeOfImage < ADDRESS_SPACE
    ensures r.Some? ==>
      var info := modules[moduleName.value].value;
      r.value == (info.baseOfDll, info.baseOfDll + info.sizeOfImage)
  {
    if moduleName.None? || moduleName.value !in modules then None
    else match modules[moduleName.value]
      case None => None
      case Some(info) =>
        var start := info.baseOfDll;
        var end := Offset(start, info.sizeOfImage);
        if start < MIN_VALID_ADDRESS || end <= start then None
        else Some((start, end))
  }

  /** The image the overload would scan can be read. */
  ghost predicate ImageReadable(modules: ModuleTable, mem: Memory, moduleName: Option<string>)
  {
    match ImageRange(modules, moduleName)
    case None => true
    case Some((start, end)) => Readable(mem, start, end)
  }

  /** What the module overload returns. */
  function ModuleScanSpec(modules: ModuleTable, mem: Memory, moduleName: Option<string>, pattern: Option<string>): Addr
    requires ImageReadable(modules, mem, moduleName)
  {
    if moduleName.None? || pattern.None? then 0
    else match ImageRange(modules, moduleName)
      case None => 0
      case Some((start, end)) => ScanSpec(mem, start, end, pattern)
  }

  /** `FindPattern(module, target_pattern)`. */
  method FindPatternInModule(modules: ModuleTable, mem: Memory, moduleName: Option<string>, targetPattern: Option<string>)
    returns (r: Addr)
    requires ImageReadable(modules, mem, moduleName)
    ensures r == ModuleScanSpec(modules, mem, moduleName, targetPattern)
    ensures moduleName.None? || targetPattern.None? ==> r == 0
    ensures ImageRange(modules, moduleName).None? ==> r == 0
    ensures r != 0 ==>
      var (start, end) := ImageRange(modules, moduleName).value;
      start <= r && r + |Parse(targetPattern.value).tokens| <= end &&
      MatchesAt(mem, r, Parse(targetPattern.value).tokens)
  {
    if moduleName.None? || targetPattern.None? {
      return 0;
    }
    if moduleName.value !in modules {
      return 0;
    }
    var moduleInfo := modules[moduleName.value];
    if moduleInfo.None? {
      return 0;
    }
    var startAddress := moduleInfo.value.baseOfDll;
    var endAddress := Offset(startAddress, moduleInfo.value.sizeOfImage);
    if startAddress < MIN_VALID_ADDRESS || endAddress <= startAddress {
      return 0;
    }
    r := FindPattern(mem, startAddress, endAddress, targetPattern);
  }
}
