/**
 * The two path computations around a created environment: where
 * `CreateVenvThread` puts the environment, and which activation script
 * `activate_venv` runs for it. `os.name == 'nt'` is the flag `isWindows`.
 */
module Activation {
  import opened Paths

  /** The directory name `CreateVenvThread` gives every new environment. */
  const VenvName: string := "myenv"

  /** `project_path = join(parent_folder, project_name)`, the project directory that is created. */
  function ProjectPath(parentFolder: Path, projectName: string): (r: Path)
    ensures Dirname(r) == parentFolder && Basename(r) == projectName
  {
    DirnameJoin(parentFolder, projectName);
    Join(parentFolder, projectName)
  }

  /**
   * `join(project_path, venv_name)`: the environment `python -m venv myenv`
   * creates inside the project directory.
   */
  function CreatedVenvPath(parentFolder: Path, projectName: string): (r: Path)
    ensures Dirname(r) == ProjectPath(parentFolder, projectName)
    ensures Basename(r) == VenvName
    ensures Dirname(Dirname(r)) == parentFolder && Basename(Dirname(r)) == projectName
  {
    DirnameJoin(ProjectPath(parentFolder, projectName), VenvName);
    DirnameJoin(parentFolder, projectName);
    Join(ProjectPath(parentFolder, projectName), VenvName)
  }

  /**
   * The activation script of the environment at `venvPath`:
   * `Scripts/activate.bat` on Windows, `bin/activate` elsewhere; in both
   * cases a file two levels below the environment directory.
   */
  function ActivateScript(isWindows: bool, venvPath: Path): (r: Path)
    ensures Dirname(Dirname(r)) == venvPath
    ensures isWindows ==> Basename(Dirname(r)) == "Scripts" && Basename(r) == "activate.bat"
    ensures !isWindows ==> Basename(Dirname(r)) == "bin" && Basename(r) == "activate"
  {
    var dir := Join(venvPath, if isWindows then "Scripts" else "bin");
    DirnameJoin(venvPath, if isWindows then "Scripts" else "bin");
    DirnameJoin(dir, if isWindows then "activate.bat" else "activate");
    Join(dir, if isWindows then "activate.bat" else "activate")
  }

  /**
   * After a creation succeeds, the window offers to activate
   * `join(project_path, 'myenv')`: that is the environment just created, so
   * the script it runs lies inside it.
   */
  lemma {:induction false} ActivationAfterCreate(isWindows: bool, parentFolder: Path, projectName: string)
    ensures var venv := Join(ProjectPath(parentFolder, projectName), "myenv");
      && venv == CreatedVenvPath(parentFolder, projectName)
      && Dirname(Dirname(ActivateScript(isWindows, venv))) == CreatedVenvPath(parentFolder, projectName)
      && IsPrefix(parentFolder, ActivateScript(isWindows, venv))
      && |ActivateScript(isWindows, venv)| == |parentFolder| + 4
  {
    var venv := Join(ProjectPath(parentFolder, projectName), "myenv");
    var script := ActivateScript(isWindows, venv);
    assert |script| == |parentFolder| + 4;
    assert script[..|parentFolder|] == parentFolder;
  }
}
