/** The PCD (platform configuration database entry) record and the type and kind
    names the build tool compares against. The names are those of the build
    tool's common data-type table, which is not part of this model. */
module PcdTypes {
  import opened Wrappers

  const FixedAtBuild := "FixedAtBuild"
  const PatchableInModule := "PatchableInModule"
  const DynamicEx := "DynamicEx"
  const Dynamic := "Dynamic"

  const Void := "VOID*"
  const Uint8 := "UINT8"
  const Uint16 := "UINT16"
  const Uint32 := "UINT32"
  const Uint64 := "UINT64"
  const Boolean := "BOOLEAN"

  predicate IsNumericType(datumType: string) {
    datumType in {Uint8, Uint16, Uint32, Uint64, Boolean}
  }

  /** One PCD as the module or a library declares it. Two PCDs are the same PCD
      when their token name and token space agree (`Key`). */
  datatype Pcd = Pcd(
    tokenSpace: string,
    tokenName: string,
    kind: string,
    datumType: string,
    defaultValue: string,
    maxDatumSize: Option<string>,
    maxSizeUserSet: bool)
  {
    function Key(): (string, string) { (tokenName, tokenSpace) }
  }
}
