/** config/config.go: the three paths a run needs, checked in order. */
module Config {
  import opened Common

  /** types.Config */
  datatype Config = Config(inputPath: string, outputPath: string, lookupPath: string)

  datatype ConfigError = ErrInputPathRequired | ErrOutputPathRequired | ErrLookupPathRequired

  /** The first missing path, in the order input, output, lookup; None (Go's
      nil) when all three are given. */
  function Validate(config: Config): (r: Option<ConfigError>)
    ensures r == Some(ErrInputPathRequired) <==> config.inputPath == ""
    ensures r == Some(ErrOutputPathRequired) <==> config.inputPath != "" && config.outputPath == ""
    ensures r == Some(ErrLookupPathRequired) <==>
              config.inputPath != "" && config.outputPath != "" && config.lookupPath == ""
    ensures r == None <==> config.inputPath != "" && config.outputPath != "" && config.lookupPath != ""
  {
    if config.inputPath == "" then Some(ErrInputPathRequired)
    else if config.outputPath == "" then Some(ErrOutputPathRequired)
    else if config.lookupPath == "" then Some(ErrLookupPathRequired)
    else None
  }
}
