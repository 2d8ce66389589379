/**
 * What the core reads from outside itself, passed in as a value: the two
 * home-directory environment variables, the platform's path separator and
 * path functions (`path.sep`, `path.isAbsolute`, `path.resolve`,
 * `path.join`), the filesystem queries of src/lib/utils.ts (`isDir`,
 * `listDirs`, both of which already turn errors into `false` and `[]`),
 * and the delegated command executor (Bun's `$`), which is given a
 * command and a working directory and yields the text it prints.
 */
module Environment {
  import opened Strings

  datatype Env = Env(
    homeVar: string,                 // process.env.HOME, "" when unset
    userProfileVar: string,          // process.env.USERPROFILE, "" when unset
    sep: Glyph,                      // path.sep
    isAbsolute: string -> bool,      // path.isAbsolute
    resolve: (string, string) -> string,  // path.resolve(from, to)
    join: (string, string) -> string,     // path.join(a, b)
    isDir: string -> bool,           // utils.isDir
    listDirs: string -> seq<string>, // utils.listDirs
    run: (string, string) -> string  // delegated execution of a command in a directory
  )

  /** `process.env.HOME || process.env.USERPROFILE || ''`. */
  function Home(env: Env): (h: string)
    ensures env.homeVar != "" ==> h == env.homeVar
    ensures env.homeVar == "" ==> h == env.userProfileVar
  {
    if env.homeVar != "" then env.homeVar
    else if env.userProfileVar != "" then env.userProfileVar
    else ""
  }

  /** `expandTilde`: a leading `~` is joined onto the home directory; any other path is returned as it is. */
  function ExpandTilde(p: string, env: Env): (r: string)
    ensures p == [] || p[0] != '~' ==> r == p
    ensures p != [] && p[0] == '~' ==> r == env.join(Home(env), p[1..])
  {
    if p != [] && p[0] == '~' then env.join(Home(env), p[1..]) else p
  }
}
