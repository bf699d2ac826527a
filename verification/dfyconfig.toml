# Verification project: all Dafny files of this directory.
includes = ["**/*.dfy"]
